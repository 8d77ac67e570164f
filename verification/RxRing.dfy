/** Receiving in the kirkwood ethernet driver: a ring of descriptors that the device
    fills, and a pool of blocks that go round between the ring, the upper layers and a
    free list (etherkirkwood.c). */
module RxRing {
  import opened Bits
  import opened Rings

  const NRX := 512
  const NRXBLOCKS := NRX + 50

  /** What the device writes into a block, with the status it leaves in the descriptor. */
  datatype Received = Received(error: bool, first: bool, last: bool, bytes: seq<byte>)

  predicate Good(f: Received) {
    !f.error && f.first && f.last
  }

  /** The device puts two bytes of padding before a packet. */
  type Frame = f: Received | Good(f) ==> |f.bytes| >= 2 witness Received(true, false, false, [])

  /** The packets in a sequence of frames, without the padding. */
  function Packets(fs: seq<Frame>): seq<seq<byte>> {
    if fs == [] then []
    else (if Good(fs[0]) then [fs[0].bytes[2..]] else []) + Packets(fs[1..])
  }

  lemma {:induction false} PacketsConcat(a: seq<Frame>, b: seq<Frame>)
    ensures Packets(a + b) == Packets(a) + Packets(b)
  {
    if a == [] {
      assert a + b == b;
    } else {
      assert (a + b)[1..] == a[1..] + b;
      PacketsConcat(a[1..], b);
    }
  }

  /** A frame gives a packet exactly if it is whole and without an error. */
  lemma PacketsOfOne(f: Frame)
    ensures Packets([f]) == if !f.error && f.first && f.last then [f.bytes[2..]] else []
  {
    assert [f][1..] == [];
  }

  /** The blocks by where they are: on the free list, in the ring from its head on, with
      the upper layers.  The device has completed the ring's first blocks with the
      frames filled, in that order. */
  datatype State = State(
    free: seq<nat>,
    ring: seq<nat>,
    upper: multiset<nat>,
    filled: seq<Frame>,
    arrived: seq<Frame>,          // all frames, since the beginning
    delivered: seq<seq<byte>>)    // all packets given to the upper layers

  datatype Event =
    | Arrive(f: Frame)            // the device completes a descriptor
    | Take                        // one round of the loop in receive
    | Refill                      // one round of the loop in rxreplenish
    | Free(b: nat)                // the upper layers free a block

  /** Whether the step can happen without touching a block that is not there. */
  predicate Enabled(s: State, e: Event) {
    match e
    case Arrive(_) => |s.filled| < |s.ring|
    case Take => s.filled != [] && s.ring != []
    case Refill => |s.ring| < NRX && s.free != []
    case Free(b) => b in s.upper
  }

  function Apply(s: State, e: Event): State
    requires Enabled(s, e)
  {
    match e
    case Arrive(f) => s.(filled := s.filled + [f], arrived := s.arrived + [f])
    case Take =>
      var b, f := s.ring[0], s.filled[0];
      var rest := s.(ring := s.ring[1..], filled := s.filled[1..]);
      if Good(f) then rest.(upper := s.upper + multiset{b}, delivered := s.delivered + Packets([f]))
      else rest.(free := [b] + s.free)
    case Refill => s.(ring := s.ring + [s.free[0]], free := s.free[1..])
    case Free(b) => s.(upper := s.upper - multiset{b}, free := [b] + s.free)
  }

  function All(n: nat): (a: multiset<nat>)
    ensures forall b: nat :: a[b] == if b < n then 1 else 0
  {
    if n == 0 then multiset{} else All(n - 1) + multiset{n - 1}
  }

  /** Every one of the n blocks is in one place, and no frame is lost, repeated or
      overtaken. */
  ghost predicate Inv(s: State, n: nat) {
    && multiset(s.free) + multiset(s.ring) + s.upper == All(n)
    && |s.ring| <= NRX && |s.filled| <= |s.ring|
    && Packets(s.arrived) == s.delivered + Packets(s.filled)
  }

  lemma ArriveInv(s: State, f: Frame, n: nat)
    requires Inv(s, n) && Enabled(s, Arrive(f))
    ensures Inv(Apply(s, Arrive(f)), n)
  {
    PacketsConcat(s.arrived, [f]);
    PacketsConcat(s.filled, [f]);
    Assoc(s.delivered, Packets(s.filled), Packets([f]));
  }

  /** The block at the ring's head may move to either of the other places. */
  lemma MoveHead(free: seq<nat>, ring: seq<nat>, upper: multiset<nat>)
    requires ring != []
    ensures var total := multiset(free) + multiset(ring) + upper;
      && multiset(free) + multiset(ring[1..]) + (upper + multiset{ring[0]}) == total
      && multiset([ring[0]] + free) + multiset(ring[1..]) + upper == total
  {
    assert ring == [ring[0]] + ring[1..];
  }

  /** What the frame at the head adds to the packets. */
  lemma TakePackets(s: State)
    requires s.filled != [] && Packets(s.arrived) == s.delivered + Packets(s.filled)
    ensures Packets(s.arrived) == s.delivered + Packets([s.filled[0]]) + Packets(s.filled[1..])
    ensures !Good(s.filled[0]) ==> Packets([s.filled[0]]) == []
  {
    var f, fs := s.filled[0], s.filled[1..];
    assert s.filled == [f] + fs;
    PacketsConcat([f], fs);
    Assoc(s.delivered, Packets([f]), Packets(fs));
    assert [f][1..] == [];
  }

  lemma TakeInv(s: State, n: nat)
    requires Inv(s, n) && Enabled(s, Take)
    ensures Inv(Apply(s, Take), n)
  {
    TakePackets(s);
    MoveHead(s.free, s.ring, s.upper);
    assert s.delivered + [] == s.delivered;
  }

  lemma RefillInv(s: State, n: nat)
    requires Inv(s, n) && Enabled(s, Refill)
    ensures Inv(Apply(s, Refill), n)
  {
    assert s.free == [s.free[0]] + s.free[1..];
  }

  lemma FreeInv(s: State, b: nat, n: nat)
    requires Inv(s, n) && Enabled(s, Free(b))
    ensures Inv(Apply(s, Free(b)), n)
  {
  }

  lemma StepInv(s: State, e: Event, n: nat)
    requires Inv(s, n) && Enabled(s, e)
    ensures Inv(Apply(s, e), n)
  {
    match e
    case Arrive(f) => ArriveInv(s, f, n);
    case Take => TakeInv(s, n);
    case Refill => RefillInv(s, n);
    case Free(b) => FreeInv(s, b, n);
  }

  predicate NoRepeats(a: seq<nat>) {
    forall i, j {:trigger Nth(i), Nth(j)} :: 0 <= i < j < |a| ==> a[i] != a[j]
  }

  lemma OnceEach(a: seq<nat>)
    requires forall b: nat :: multiset(a)[b] <= 1
    ensures NoRepeats(a)
  {
    forall i, j | 0 <= i < j < |a|
      ensures a[i] != a[j]
    {
      assert a == a[..j] + a[j..];
      assert a[..j][i] == a[i] && a[j..][0] == a[j];
      assert multiset(a)[a[i]] <= 1;
    }
  }

  /** Where a block is, and that it is nowhere else. */
  lemma OnePlace(s: State, n: nat, b: nat)
    requires Inv(s, n)
    ensures b < n <==> b in s.free || b in s.ring || b in s.upper
    ensures !(b in s.free && b in s.ring) && !(b in s.free && b in s.upper) && !(b in s.ring && b in s.upper)
    ensures s.upper[b] <= 1 && NoRepeats(s.free) && NoRepeats(s.ring)
  {
    forall x: nat
      ensures multiset(s.free)[x] + multiset(s.ring)[x] + s.upper[x] == if x < n then 1 else 0
    {
      assert All(n)[x] == (multiset(s.free) + multiset(s.ring) + s.upper)[x];
    }
    OnceEach(s.free);
    OnceEach(s.ring);
  }

  predicate Possible(s: State, es: seq<Event>)
    decreases |es|
  {
    es == [] || (Enabled(s, es[0]) && Possible(Apply(s, es[0]), es[1..]))
  }

  function Final(s: State, es: seq<Event>): State
    requires Possible(s, es)
    decreases |es|
  {
    if es == [] then s else Final(Apply(s, es[0]), es[1..])
  }

  lemma {:induction false} RunInv(s: State, es: seq<Event>, n: nat)
    requires Inv(s, n) && Possible(s, es)
    ensures Inv(Final(s, es), n)
    decreases |es|
  {
    if es != [] {
      StepInv(s, es[0], n);
      RunInv(Apply(s, es[0]), es[1..], n);
    }
  }

  // ---------- the driver ----------

  /** A receive descriptor: whose it is, the status and length the device left, and where
      it points, as a block and a place in its memory. */
  datatype Desc = Desc(own: bool, error: bool, first: bool, last: bool, count: nat, buf: (nat, nat))

  /** A block: its place on the free list, where its data begins and ends, and its memory.
      Places in it are counted from where the data began when the block was last
      allocated, by iallocb, or freed, by rxfreeb. */
  datatype Block = Block(next: int, rp: nat, wp: nat, mem: seq<byte>)

  const NIL := -1

  /** What a place of the ring holds, going by both arrays. */
  datatype Place = Empty | Owned(b: nat) | Done(b: nat, error: bool, first: bool, last: bool, count: nat) | Broken

  function PlaceOf(b: int, d: Desc): Place {
    if b < 0 then if d.own then Broken else Empty
    else if !d.own then Done(b, d.error, d.first, d.last, d.count)
    else if d.buf == (b as nat, 0) then Owned(b)
    else Broken
  }

  /** What the place i behind the ring's head holds. */
  function WindowAt(s: State, i: nat): Place
    requires |s.filled| <= |s.ring|
  {
    if i < |s.filled| then
      var f := s.filled[i];
      Done(s.ring[i], f.error, f.first, f.last, |f.bytes|)
    else if i < |s.ring| then Owned(s.ring[i])
    else Empty
  }

  /** The free list, by the blocks' next fields. */
  ghost predicate Listed(head: int, blocks: seq<Block>, free: seq<nat>)
    decreases |free|
  {
    if free == [] then head == NIL
    else head == free[0] && free[0] < |blocks| && Listed(blocks[free[0]].next, blocks, free[1..])
  }

  /** Changing another block leaves the list. */
  lemma {:induction false} ListedFrame(head: int, blocks: seq<Block>, free: seq<nat>, b: nat, x: Block)
    requires Listed(head, blocks, free) && b < |blocks| && (b in free ==> x.next == blocks[b].next)
    ensures Listed(head, blocks[b := x], free)
    decreases |free|
  {
    if free != [] {
      ListedFrame(blocks[free[0]].next, blocks, free[1..], b, x);
    }
  }

  /** Nobody has moved the beginning of a block that is free or in the ring, and a completed
      one has its frame in memory. */
  ghost predicate Clean(blocks: seq<Block>, s: State) {
    && (forall b {:trigger Nth(b)} :: b in s.free || b in s.ring ==> b < |blocks| && blocks[b].rp == 0)
    && |s.filled| <= |s.ring|
    && (forall i {:trigger Nth(i)} :: 0 <= i < |s.filled| ==>
          s.ring[i] < |blocks| && blocks[s.ring[i]].mem == s.filled[i].bytes)
  }

  /** The places hold the ring, with its head, its tail and the device's place. */
  ghost predicate RingAt(places: seq<Place>, head: nat, tail: nat, dev: nat, s: State) {
    && |places| == NRX && |s.filled| <= |s.ring| <= NRX && head < NRX
    && tail == Wrap(head, |s.ring|, NRX) && dev == Wrap(head, |s.filled|, NRX)
    && forall i {:trigger Nth(i)} :: 0 <= i < NRX ==> places[Wrap(head, i, NRX)] == WindowAt(s, i)
  }

  lemma RingTaken(places: seq<Place>, head: nat, tail: nat, dev: nat, s: State)
    requires RingAt(places, head, tail, dev, s) && Enabled(s, Take)
    ensures RingAt(places[head := Empty], (head + 1) % NRX, tail, dev, Apply(s, Take))
  {
    ModIsWrap(head, 1, NRX);
    var s', next := Apply(s, Take), Wrap(head, 1, NRX);
    forall i | 0 <= i < NRX
      ensures places[head := Empty][Wrap(next, i, NRX)] == WindowAt(s', i)
    {
      assert Nth(i + 1);
    }
  }

  lemma RingRefilled(places: seq<Place>, head: nat, tail: nat, dev: nat, s: State)
    requires RingAt(places, head, tail, dev, s) && Enabled(s, Refill)
    ensures RingAt(places[tail := Owned(s.free[0])], head, (tail + 1) % NRX, dev, Apply(s, Refill))
  {
    ModIsWrap(tail, 1, NRX);
    var s' := Apply(s, Refill);
    forall i | 0 <= i < NRX
      ensures places[tail := Owned(s.free[0])][Wrap(head, i, NRX)] == WindowAt(s', i)
    {
      assert Nth(i);
    }
  }

  lemma RingArrived(places: seq<Place>, head: nat, tail: nat, dev: nat, s: State, f: Frame)
    requires RingAt(places, head, tail, dev, s) && Enabled(s, Arrive(f))
    ensures RingAt(places[dev := Done(s.ring[|s.filled|], f.error, f.first, f.last, |f.bytes|)], head, tail,
                   (dev + 1) % NRX, Apply(s, Arrive(f)))
  {
    ModIsWrap(dev, 1, NRX);
    var s', x := Apply(s, Arrive(f)), Done(s.ring[|s.filled|], f.error, f.first, f.last, |f.bytes|);
    forall i | 0 <= i < NRX
      ensures places[dev := x][Wrap(head, i, NRX)] == WindowAt(s', i)
    {
      assert Nth(i);
    }
  }

  lemma RingFreed(places: seq<Place>, head: nat, tail: nat, dev: nat, s: State, b: nat)
    requires RingAt(places, head, tail, dev, s) && Enabled(s, Free(b))
    ensures RingAt(places, head, tail, dev, Apply(s, Free(b)))
  {
    var s' := Apply(s, Free(b));
    forall i | 0 <= i < NRX
      ensures places[Wrap(head, i, NRX)] == WindowAt(s', i)
    {
      assert Nth(i);
    }
  }

  /** What the driver and the device see at their places. */
  lemma RingSeen(places: seq<Place>, head: nat, tail: nat, dev: nat, s: State)
    requires RingAt(places, head, tail, dev, s)
    ensures head < NRX && tail < NRX && dev < NRX
    ensures places[head] == WindowAt(s, 0)
    ensures places[tail] == Empty <==> |s.ring| < NRX
    ensures places[tail] == Empty || places[tail].Owned? || places[tail].Done?
    ensures places[dev].Owned? <==> |s.filled| < |s.ring|
    ensures places[dev].Owned? ==> places[dev].b == s.ring[|s.filled|]
  {
    assert Nth(0) && Nth(|s.ring|) && Nth(|s.filled|);
  }

  /** What stays as it was when the head is taken. */
  lemma CleanTake(blocks: seq<Block>, s: State, x: Block)
    requires Clean(blocks, s) && Enabled(s, Take) && s.ring[0] < |blocks| && NoRepeats(s.ring)
    requires (Good(s.filled[0]) && s.ring[0] !in s.free) || x.rp == 0
    ensures Clean(blocks[s.ring[0] := x], Apply(s, Take))
  {
    var s', after := Apply(s, Take), blocks[s.ring[0] := x];
    assert Nth(0);
    forall i | 0 <= i < |s'.filled|
      ensures s'.ring[i] < |after| && after[s'.ring[i]].mem == s'.filled[i].bytes
    {
      assert Nth(i + 1) && s'.ring[i] == s.ring[i + 1] && s'.filled[i] == s.filled[i + 1];
    }
    forall b | b in s'.free || b in s'.ring
      ensures b < |after| && after[b].rp == 0
    {
      assert Nth(b);
      if b in s'.ring {
        var i :| 0 <= i < |s'.ring| && s'.ring[i] == b;
        assert Nth(i + 1) && b == s.ring[i + 1];
      }
    }
  }

  /** What stays as it was when a frame arrives. */
  lemma CleanArrive(blocks: seq<Block>, s: State, f: Frame)
    requires Clean(blocks, s) && Enabled(s, Arrive(f)) && NoRepeats(s.ring)
    ensures var b := s.ring[|s.filled|];
      b < |blocks| && Clean(blocks[b := blocks[b].(mem := f.bytes)], Apply(s, Arrive(f)))
  {
    var b := s.ring[|s.filled|];
    assert Nth(b) && Nth(|s.filled|);
    var s', after := Apply(s, Arrive(f)), blocks[b := blocks[b].(mem := f.bytes)];
    forall i | 0 <= i < |s'.filled|
      ensures s'.ring[i] < |after| && after[s'.ring[i]].mem == s'.filled[i].bytes
    {
      assert Nth(i);
    }
    forall c | c in s'.free || c in s'.ring
      ensures c < |after| && after[c].rp == 0
    {
      assert Nth(c);
    }
  }

  /** What stays as it was when another block changes, or the list of free blocks. */
  lemma CleanSet(blocks: seq<Block>, s: State, s': State, b: nat, x: Block)
    requires Clean(blocks, s) && b < |blocks| && s'.filled == s.filled && s.ring <= s'.ring
    requires forall c :: c in s'.free || c in s'.ring ==> c == b || c in s.free || c in s.ring
    requires b in s'.free || b in s'.ring ==> x.rp == 0
    requires b !in s.ring
    ensures Clean(blocks[b := x], s')
  {
    var after := blocks[b := x];
    forall i | 0 <= i < |s'.filled|
      ensures s'.ring[i] < |after| && after[s'.ring[i]].mem == s'.filled[i].bytes
    {
      assert Nth(i) && s.ring[i] in s.ring;
    }
    forall c | c in s'.free || c in s'.ring
      ensures c < |after| && after[c].rp == 0
    {
      assert Nth(c);
    }
  }

  /** The blocks hold the free list and the frames. */
  ghost predicate PoolAt(pool: seq<Block>, head: int, s: State) {
    Listed(head, pool, s.free) && Clean(pool, s)
  }

  lemma FreshHead(s: State, n: nat)
    requires Inv(s, n) && s.free != []
    ensures s.free[0] !in s.free[1..]
  {
    OnePlace(s, n, s.free[0]);
    forall i | 1 <= i < |s.free|
      ensures s.free[i] != s.free[0]
    {
      assert Nth(0) && Nth(i);
    }
  }

  lemma PoolRefilled(pool: seq<Block>, head: int, s: State)
    requires Inv(s, |pool|) && PoolAt(pool, head, s) && Enabled(s, Refill)
    ensures head == s.free[0] < |pool| && pool[head].rp == 0
    ensures PoolAt(pool[head := pool[head].(next := NIL)], pool[head].next, Apply(s, Refill))
  {
    var x := pool[head].(next := NIL);
    OnePlace(s, |pool|, head);
    assert Nth(head) && s.free == [head] + s.free[1..];
    FreshHead(s, |pool|);
    ListedFrame(pool[head].next, pool, s.free[1..], head, x);
    CleanSet(pool, s, Apply(s, Refill), head, x);
  }

  lemma PoolArrived(pool: seq<Block>, head: int, s: State, f: Frame)
    requires Inv(s, |pool|) && PoolAt(pool, head, s) && Enabled(s, Arrive(f))
    ensures var b := s.ring[|s.filled|];
      b < |pool| && PoolAt(pool[b := pool[b].(mem := f.bytes)], head, Apply(s, Arrive(f)))
  {
    var b := s.ring[|s.filled|];
    OnePlace(s, |pool|, b);
    CleanArrive(pool, s, f);
    ListedFrame(head, pool, s.free, b, pool[b].(mem := f.bytes));
  }

  lemma PoolFreed(pool: seq<Block>, head: int, s: State, b: nat)
    requires Inv(s, |pool|) && PoolAt(pool, head, s) && Enabled(s, Free(b))
    ensures b < |pool| && PoolAt(pool[b := pool[b].(rp := 0, wp := 0, next := head)], b, Apply(s, Free(b)))
  {
    OnePlace(s, |pool|, b);
    var x := pool[b].(rp := 0, wp := 0, next := head);
    ListedFrame(head, pool, s.free, b, x);
    CleanSet(pool, s, Apply(s, Free(b)), b, x);
    assert ([b] + s.free)[1..] == s.free;
  }

  lemma PoolPutBack(pool: seq<Block>, head: int, s: State)
    requires Inv(s, |pool|) && PoolAt(pool, head, s) && Enabled(s, Take) && !Good(s.filled[0])
    ensures var b := s.ring[0];
      b < |pool| && PoolAt(pool[b := pool[b].(rp := 0, wp := 0, next := head)], b, Apply(s, Take))
  {
    var b := s.ring[0];
    OnePlace(s, |pool|, b);
    assert Nth(b);
    var x := pool[b].(rp := 0, wp := 0, next := head);
    ListedFrame(head, pool, s.free, b, x);
    CleanTake(pool, s, x);
    assert ([b] + s.free)[1..] == s.free;
  }

  lemma PoolHandUp(pool: seq<Block>, head: int, s: State)
    requires Inv(s, |pool|) && PoolAt(pool, head, s) && Enabled(s, Take) && Good(s.filled[0])
    ensures var b, n := s.ring[0], |s.filled[0].bytes|;
      && b < |pool| && pool[b].rp == 0 && pool[b].mem == s.filled[0].bytes
      && PoolAt(pool[b := pool[b].(wp := n, rp := 2)], head, Apply(s, Take))
  {
    var b := s.ring[0];
    OnePlace(s, |pool|, b);
    assert Nth(b) && Nth(0);
    var x := pool[b].(wp := |s.filled[0].bytes|, rp := 2);
    ListedFrame(head, pool, s.free, b, x);
    CleanTake(pool, s, x);
  }

  lemma PoolUsed(pool: seq<Block>, head: int, s: State, b: nat, x: Block)
    requires Inv(s, |pool|) && PoolAt(pool, head, s) && b in s.upper && b < |pool|
    ensures PoolAt(pool[b := x], head, s)
  {
    OnePlace(s, |pool|, b);
    ListedFrame(head, pool, s.free, b, x);
    CleanSet(pool, s, s, b, x);
  }

  datatype Outcome = Stopped | NoBlock | Freed(b: nat) | Delivered(b: nat, packet: seq<byte>)

  /** The blocks in the order in which they come to be free: the last one first. */
  function Countdown(n: nat): (d: seq<nat>)
    ensures |d| == n && forall b :: b in d ==> b < n
  {
    if n == 0 then [] else [n - 1] + Countdown(n - 1)
  }

  /** Nothing but n free blocks. */
  function Begin(n: nat): State {
    State(Countdown(n), [], multiset{}, [], [], [])
  }

  lemma {:induction false} BeginInv(n: nat)
    ensures Inv(Begin(n), n)
  {
    if n > 0 {
      BeginInv(n - 1);
    }
  }

  lemma PoolBegun(pool: seq<Block>, head: int, i: nat)
    requires PoolAt(pool, head, Begin(i)) && i < |pool| && pool[i].rp == 0
    ensures PoolAt(pool[i := pool[i].(next := head)], i, Begin(i + 1))
  {
    var x := pool[i].(next := head);
    ListedFrame(head, pool, Countdown(i), i, x);
    CleanSet(pool, Begin(i), Begin(i + 1), i, x);
    assert Countdown(i + 1)[1..] == Countdown(i);
  }

  lemma RingBegun(places: seq<Place>, n: nat)
    requires |places| == NRX && forall i :: 0 <= i < NRX ==> places[i] == Empty
    ensures RingAt(places, 0, 0, 0, Begin(n))
  {
    forall i | 0 <= i < NRX
      ensures places[Wrap(0, i, NRX)] == WindowAt(Begin(n), i)
    {
      assert Wrap(0, i, NRX) == i;
    }
  }

  /** What becomes of the block at the head: a good frame is passed on, without padding. */
  function Handled(s: State): Outcome
    requires Enabled(s, Take)
  {
    var b, f := s.ring[0], s.filled[0];
    if Good(f) then Delivered(b, f.bytes[2..]) else Freed(b)
  }

  class Ctlr {
    const rx: array<Desc>
    const rxb: array<int>
    const blocks: array<Block>
    var rxhead: nat
    var rxtail: nat
    var rxdev: nat        // the device's place in the ring
    var freehead: int
    ghost var s: State
    ghost var places: seq<Place>
    ghost var pool: seq<Block>

    /** The ghost fields say what is in the arrays. */
    ghost predicate PlacesOk()
      reads `places, rx, rxb
    {
      && rx.Length == NRX && rxb.Length == NRX && |places| == NRX
      && forall i {:trigger Nth(i)} :: 0 <= i < NRX ==> places[i] == PlaceOf(rxb[i], rx[i])
    }

    ghost predicate PoolOk()
      reads `pool, blocks
    {
      pool == blocks[..]
    }

    ghost predicate Coupled()
      reads `places, `pool, rx, rxb, blocks
    {
      PlacesOk() && PoolOk()
    }

    ghost predicate Valid()
      reads this, rx, rxb, blocks
    {
      Coupled() && RingAt(places, rxhead, rxtail, rxdev, s) && PoolAt(pool, freehead, s)
    }

    /** ctlrinit: n blocks, all free, then as many as fit into the ring. */
    constructor (n: nat)
      ensures Valid() && Inv(s, n) && blocks.Length == n && s == Refilled(Begin(n))
      ensures fresh(rx) && fresh(rxb) && fresh(blocks)
    {
      rx := new Desc[NRX](_ => Desc(false, false, false, false, 0, (0, 0)));
      rxb := new int[NRX](_ => NIL);
      blocks := new Block[n](_ => Block(NIL, 0, 0, []));
      places, pool := seq(NRX, _ => Empty), seq(n, _ => Block(NIL, 0, 0, []));
      rxhead, rxtail, rxdev, freehead := 0, 0, 0, NIL;
      s := Begin(0);
      new;
      assert pool == blocks[..];
      forall j | 0 <= j < NRX
        ensures places[j] == Empty == PlaceOf(rxb[j], rx[j])
      {
      }
      FillPool();
      BeginInv(n);
      RingBegun(places, n);
      RxReplenish();
    }

    /** The blocks that iallocb has given. */
    method FillPool()
      requires PoolOk() && freehead == NIL && forall b :: 0 <= b < |pool| ==> pool[b].rp == 0
      modifies `freehead, `pool, `s, blocks
      ensures PoolOk() && PoolAt(pool, freehead, s) && s == Begin(blocks.Length)
    {
      var i := 0;
      s := Begin(0);
      while i < blocks.Length
        invariant 0 <= i <= blocks.Length && PoolOk()
        invariant s == Begin(i) && PoolAt(pool, freehead, s)
        invariant forall b :: i <= b < |pool| ==> pool[b].rp == 0
      {
        PoolBegun(pool, freehead, i);
        SetBlock(i, blocks[i].(next := freehead));
        freehead := i;
        i := i + 1;
        s := Begin(i);
      }
    }

    /** What the arrays have at a place. */
    lemma AtPlace(i: nat)
      requires PlacesOk() && i < NRX
      ensures places[i] == PlaceOf(rxb[i], rx[i])
    {
      assert Nth(i);
    }

    method SetBlock(b: nat, x: Block)
      requires PoolOk() && b < blocks.Length
      modifies `pool, blocks
      ensures PoolOk() && pool == old(pool)[b := x]
    {
      blocks[b] := x;
      pool := pool[b := x];
    }

    method SetPlace(i: nat, b: int, d: Desc)
      requires PlacesOk() && i < NRX
      modifies `places, rx, rxb
      ensures PlacesOk() && places == old(places)[i := PlaceOf(b, d)]
    {
      forall j | 0 <= j < NRX
        ensures places[j] == PlaceOf(rxb[j], rx[j])
      {
        assert Nth(j);
      }
      rxb[i] := b;
      rx[i] := d;
      places := places[i := PlaceOf(b, d)];
    }

    method RxAllocB() returns (b: int)
      requires PoolOk() && (freehead == NIL || 0 <= freehead < blocks.Length)
      modifies `freehead, `pool, blocks
      ensures PoolOk() && b == old(freehead)
      ensures b == NIL ==> pool == old(pool) && freehead == NIL
      ensures b != NIL ==> freehead == old(pool[b].next) && pool == old(pool[b := pool[b].(next := NIL)])
    {
      b := freehead;
      if b != NIL {
        freehead := blocks[b].next;
        SetBlock(b, blocks[b].(next := NIL));
      }
    }

    method RxFreeB(b: nat)
      requires PoolOk() && b < blocks.Length
      modifies `freehead, `pool, blocks
      ensures PoolOk() && freehead == b
      ensures pool == old(pool[b := pool[b].(rp := 0, wp := 0, next := freehead)])
    {
      SetBlock(b, blocks[b].(rp := 0, wp := 0, next := freehead));
      freehead := b;
    }

    /** One round of the loop in rxreplenish. */
    method RefillStep() returns (ok: bool)
      requires Valid() && Inv(s, blocks.Length) && |s.ring| < NRX
      modifies this, rx, rxb, blocks
      ensures Valid() && rxhead == old(rxhead)
      ensures ok == (old(s).free != []) && s == if ok then Apply(old(s), Refill) else old(s)
    {
      RingSeen(places, rxhead, rxtail, rxdev, s);
      AtPlace(rxtail);
      if s.free != [] {
        PoolRefilled(pool, freehead, s);
        RingRefilled(places, rxhead, rxtail, rxdev, s);
      }
      var b := RxAllocB();
      if b == NIL {
        return false;
      }
      SetPlace(rxtail, b, Desc(true, false, false, false, 0, (b, blocks[b].rp)));
      rxtail := (rxtail + 1) % NRX;
      s := Apply(s, Refill);
      ok := true;
    }

    method RxReplenish()
      requires Valid() && Inv(s, blocks.Length)
      modifies this, rx, rxb, blocks
      ensures Valid() && Inv(s, blocks.Length) && s == Refilled(old(s)) && rxhead == old(rxhead)
    {
      RingSeen(places, rxhead, rxtail, rxdev, s);
      AtPlace(rxtail);
      while rxb[rxtail] < 0
        invariant Valid() && Inv(s, blocks.Length) && rxtail < NRX && rxhead == old(rxhead)
        invariant rxb[rxtail] < 0 <==> |s.ring| < NRX
        invariant Refilled(s) == Refilled(old(s))
        decreases NRX - |s.ring|
      {
        if s.free != [] {
          RefillInv(s, blocks.Length);
        }
        var ok := RefillStep();
        if !ok {
          break;
        }
        RingSeen(places, rxhead, rxtail, rxdev, s);
        AtPlace(rxtail);
      }
    }

    /** The device completes the next descriptor it owns. */
    method Complete(f: Frame)
      requires Valid() && Inv(s, blocks.Length) && Enabled(s, Arrive(f))
      modifies this, rx, rxb, blocks
      ensures Valid() && s == Apply(old(s), Arrive(f)) && rxhead == old(rxhead)
    {
      RingSeen(places, rxhead, rxtail, rxdev, s);
      AtPlace(rxdev);
      RingArrived(places, rxhead, rxtail, rxdev, s, f);
      PoolArrived(pool, freehead, s, f);
      var (b, _) := rx[rxdev].buf;
      SetBlock(b, blocks[b].(mem := f.bytes));
      SetPlace(rxdev, rxb[rxdev], Desc(false, f.error, f.first, f.last, |f.bytes|, rx[rxdev].buf));
      rxdev := (rxdev + 1) % NRX;
      s := Apply(s, Arrive(f));
    }

    /** The upper layers do what they like with a block they have. */
    method Use(b: nat, x: Block)
      requires Valid() && Inv(s, blocks.Length) && b in s.upper && b < blocks.Length
      modifies `pool, blocks
      ensures Valid()
    {
      PoolUsed(pool, freehead, s, b, x);
      SetBlock(b, x);
    }

    /** The upper layers free a block. */
    method UpperFree(b: nat)
      requires Valid() && Inv(s, blocks.Length) && b in s.upper
      modifies this, blocks
      ensures Valid() && s == Apply(old(s), Free(b)) && rxhead == old(rxhead)
    {
      PoolFreed(pool, freehead, s, b);
      RingFreed(places, rxhead, rxtail, rxdev, s, b);
      RxFreeB(b);
      s := Apply(s, Free(b));
    }

    /** The block of a bad frame. */
    method PutBack(b: nat)
      requires PoolOk() && PoolAt(pool, freehead, s) && Inv(s, blocks.Length) && Enabled(s, Take)
      requires b == s.ring[0] && !Good(s.filled[0])
      modifies `freehead, `pool, blocks
      ensures PoolOk() && PoolAt(pool, freehead, Apply(s, Take))
    {
      PoolPutBack(pool, freehead, s);
      RxFreeB(b);
    }

    /** The block of a good frame, whose data is what follows the padding. */
    method HandUp(b: nat, count: nat) returns (packet: seq<byte>)
      requires PoolOk() && PoolAt(pool, freehead, s) && Inv(s, blocks.Length) && Enabled(s, Take)
      requires b == s.ring[0] && Good(s.filled[0]) && count == |s.filled[0].bytes|
      modifies `pool, blocks
      ensures PoolOk() && PoolAt(pool, freehead, Apply(s, Take))
      ensures packet == s.filled[0].bytes[2..]
    {
      PoolHandUp(pool, freehead, s);
      var x := blocks[b];
      x := x.(wp := x.rp + count, rp := x.rp + 2);
      SetBlock(b, x);
      packet := x.mem[x.rp..x.wp];
    }

    /** What receive does with a block it has taken from the ring. */
    method PassOn(b: nat, r: Desc) returns (o: Outcome)
      requires PoolOk() && PoolAt(pool, freehead, s) && Inv(s, blocks.Length) && Enabled(s, Take)
      requires b == s.ring[0]
      requires var f := s.filled[0];
        r.error == f.error && r.first == f.first && r.last == f.last && r.count == |f.bytes|
      modifies `freehead, `pool, blocks
      ensures PoolOk() && PoolAt(pool, freehead, Apply(s, Take))
      ensures o == Handled(s)
    {
      if r.error {
        PutBack(b);
        return Freed(b);
      }
      if !(r.first && r.last) {
        PutBack(b);
        return Freed(b);
      }
      var packet := HandUp(b, r.count);
      o := Delivered(b, packet);
    }

    /** The place at the head, whose descriptor is r, is left empty. */
    method TakeHead(r: Desc)
      requires PlacesOk() && RingAt(places, rxhead, rxtail, rxdev, s) && Enabled(s, Take)
      requires rxhead < NRX && r == rx[rxhead] && !r.own
      modifies `rxhead, `places, rx, rxb
      ensures PlacesOk() && RingAt(places, rxhead, rxtail, rxdev, Apply(s, Take))
    {
      RingTaken(places, rxhead, rxtail, rxdev, s);
      SetPlace(rxhead, NIL, r);
      rxhead := (rxhead + 1) % NRX;
    }

    /** One round of the loop in receive. */
    method ReceiveStep() returns (o: Outcome)
      requires Valid() && Inv(s, blocks.Length)
      modifies this, rx, rxb, blocks
      ensures old(s).ring == [] ==> o == NoBlock
      ensures old(s).ring != [] ==> Valid()
      ensures old(s).ring != [] && old(s).filled == [] ==> o == Stopped && s == old(s)
      ensures old(s).filled != [] ==> s == Apply(old(s), Take) && o == Handled(old(s))
      ensures old(s).filled != [] ==>
        var r, b, bytes := old(rx[rxhead]), old(s).ring[0], old(s).filled[0].bytes;
        if r.error || !r.first || !r.last then o == Freed(b)
        else |bytes| >= 2 && o == Delivered(b, bytes[2..])
    {
      RingSeen(places, rxhead, rxtail, rxdev, s);
      AtPlace(rxhead);
      var r := rx[rxhead];
      if r.own {
        return Stopped;
      }
      var b := rxb[rxhead];
      if b < 0 {
        return NoBlock;
      }
      TakeHead(r);
      o := PassOn(b, r);
      s := Apply(s, Take);
    }

    /** The device completes descriptors, as long as it has any. */
    method CompleteAll(fs: seq<Frame>)
      requires Valid() && Inv(s, blocks.Length)
      modifies this, rx, rxb, blocks
      ensures Valid() && s == ArriveAll(old(s), fs)
    {
      var k := 0;
      ghost var more := fs;
      while k < |fs|
        invariant 0 <= k <= |fs| && Valid() && Inv(s, blocks.Length) && more == fs[k..]
        invariant ArriveAll(s, more) == ArriveAll(old(s), fs)
      {
        RingSeen(places, rxhead, rxtail, rxdev, s);
        AtPlace(rxdev);
        if !rx[rxdev].own {
          break;
        }
        ArriveInv(s, fs[k], blocks.Length);
        Complete(fs[k]);
        k, more := k + 1, more[1..];
      }
    }

    /** receive; before its i-th round the device completes descriptors with incoming(i). */
    method Receive(incoming: nat -> seq<Frame>) returns (ok: bool)
      requires Valid() && Inv(s, blocks.Length)
      modifies this, rx, rxb, blocks
      ensures ok == Receives(old(s), incoming, 0).1
      ensures ok ==> Valid() && Inv(s, blocks.Length) && s == Refilled(Receives(old(s), incoming, 0).0)
    {
      var i := 0;
      while true
        invariant Valid() && Inv(s, blocks.Length) && Receives(s, incoming, i) == Receives(old(s), incoming, 0)
        decreases |s.ring|
      {
        ArriveAllInv(s, incoming(i), blocks.Length);
        CompleteAll(incoming(i));
        if s.filled != [] {
          TakeInv(s, blocks.Length);
        }
        var o := ReceiveStep();
        if o == NoBlock {
          return false;
        }
        if o == Stopped {
          break;
        }
        i := i + 1;
      }
      RxReplenish();
      ok := true;
    }
  }

  function ArriveAll(s: State, fs: seq<Frame>): (t: State)
    requires |s.filled| <= |s.ring|
    ensures t.ring == s.ring && |t.filled| == Min(|s.ring|, |s.filled| + |fs|)
    decreases |fs|
  {
    if fs == [] || |s.filled| == |s.ring| then s else ArriveAll(Apply(s, Arrive(fs[0])), fs[1..])
  }

  /** The state when receive has seen all completed descriptors, or false if it comes to
      a place of the ring without a block. */
  function Receives(s: State, incoming: nat -> seq<Frame>, i: nat): (State, bool)
    requires |s.filled| <= |s.ring|
    decreases |s.ring|
  {
    var t := ArriveAll(s, incoming(i));
    if t.ring == [] then (t, false)
    else if t.filled == [] then (t, true)
    else Receives(Apply(t, Take), incoming, i + 1)
  }

  /** How many frames come before each of k rounds. */
  function Incoming(incoming: nat -> seq<Frame>, i: nat, k: nat): nat
    decreases k
  {
    if k == 0 then 0 else |incoming(i)| + Incoming(incoming, i + 1, k - 1)
  }

  /** Round j finds a completed descriptor, if none is missing before. */
  predicate Ahead(filled: nat, incoming: nat -> seq<Frame>, i: nat, j: nat) {
    filled + Incoming(incoming, i, j + 1) > j
  }

  /** receive meets a missing block exactly when the device always keeps ahead of it,
      until it has completed every filled descriptor. */
  lemma {:induction false} MissesExactlyWhen(s: State, incoming: nat -> seq<Frame>, i: nat)
    requires |s.filled| <= |s.ring|
    ensures !Receives(s, incoming, i).1 <==> forall j :: 0 <= j < |s.ring| ==> Ahead(|s.filled|, incoming, i, j)
    decreases |s.ring|
  {
    var t := ArriveAll(s, incoming(i));
    if t.ring != [] {
      assert Incoming(incoming, i, 1) == |incoming(i)|;
      assert Ahead(|s.filled|, incoming, i, 0) <==> t.filled != [];
      if t.filled != [] {
        var next := i + 1;
        MissesExactlyWhen(Apply(t, Take), incoming, next);
        forall j | 1 <= j < |s.ring|
          ensures Ahead(|t.filled| - 1, incoming, next, j - 1) <==> Ahead(|s.filled|, incoming, i, j)
        {
          assert Incoming(incoming, i, j + 1) == |incoming(i)| + Incoming(incoming, next, j);
        }
        AheadShift(|s.filled|, |t.filled| - 1, incoming, i, next, |s.ring|);
      }
    }
  }

  lemma AheadShift(p: nat, q: nat, incoming: nat -> seq<Frame>, i: nat, next: nat, n: nat)
    requires n > 0 && Ahead(p, incoming, i, 0)
    requires forall j :: 1 <= j < n ==> (Ahead(q, incoming, next, j - 1) <==> Ahead(p, incoming, i, j))
    ensures (forall j :: 0 <= j < n - 1 ==> Ahead(q, incoming, next, j)) <==>
      (forall j :: 0 <= j < n ==> Ahead(p, incoming, i, j))
  {
    if forall j :: 0 <= j < n ==> Ahead(p, incoming, i, j) {
      forall j | 0 <= j < n - 1
        ensures Ahead(q, incoming, next, j)
      {
        assert Ahead(p, incoming, i, j + 1);
      }
    }
  }

  /** When receive returns, all that arrived so far is delivered, in order. */
  lemma {:induction false} ReceivedIsDelivered(s: State, incoming: nat -> seq<Frame>, i: nat, n: nat)
    requires Inv(s, n) && Receives(s, incoming, i).1
    ensures var t := Receives(s, incoming, i).0;
      Inv(t, n) && t.filled == [] && t.delivered == Packets(t.arrived)
    decreases |s.ring|
  {
    ArriveAllInv(s, incoming(i), n);
    var t := ArriveAll(s, incoming(i));
    if t.filled == [] {
      assert t.delivered + [] == t.delivered;
    } else {
      TakeInv(t, n);
      ReceivedIsDelivered(Apply(t, Take), incoming, i + 1, n);
    }
  }

  lemma {:induction false} ArriveAllInv(s: State, fs: seq<Frame>, n: nat)
    requires Inv(s, n)
    ensures Inv(ArriveAll(s, fs), n)
    decreases |fs|
  {
    if fs != [] && |s.filled| < |s.ring| {
      ArriveInv(s, fs[0], n);
      ArriveAllInv(Apply(s, Arrive(fs[0])), fs[1..], n);
    }
  }

  /** The state after rxreplenish. */
  function Refilled(s: State): (t: State)
    ensures t.filled == s.filled && |s.ring| <= |t.ring|
    decreases |s.free|
  {
    if Enabled(s, Refill) then Refilled(Apply(s, Refill)) else s
  }

  /** It moves blocks from the free list to the ring's end until the ring is full or no
      block is left. */
  lemma {:induction false} RefilledFills(s: State)
    requires |s.ring| <= NRX
    ensures var k := Min(NRX - |s.ring|, |s.free|);
      Refilled(s) == s.(ring := s.ring + s.free[..k], free := s.free[k..])
    decreases |s.free|
  {
    var k := Min(NRX - |s.ring|, |s.free|);
    if k > 0 {
      RefilledFills(Apply(s, Refill));
      assert s.free[1..][..k - 1] == s.free[1..k];
      assert s.ring + [s.free[0]] + s.free[1..k] == s.ring + s.free[..k];
      assert s.free[1..][k - 1..] == s.free[k..];
    } else {
      assert s.ring + [] == s.ring;
    }
  }

  /** The driver's pool fills the ring and leaves 50 blocks to pass on. */
  lemma StartsFull()
    ensures |Refilled(Begin(NRXBLOCKS)).ring| == NRX && |Refilled(Begin(NRXBLOCKS)).free| == 50
  {
    RefilledFills(Begin(NRXBLOCKS));
  }

  /** If frames arrive for the whole ring before receive runs, it comes round to a place
      whose block it has taken. */
  lemma DryExample(fs: seq<Frame>)
    requires |fs| >= NRX
    ensures !Receives(ArriveAll(Refilled(Begin(NRXBLOCKS)), fs), _ => [], 0).1
  {
    RefilledFills(Begin(NRXBLOCKS));
    MissesExactlyWhen(ArriveAll(Refilled(Begin(NRXBLOCKS)), fs), _ => [], 0);
  }
}
