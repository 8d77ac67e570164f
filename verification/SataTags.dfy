/** The sata driver's own memory (devsata.c): the ring of tags, the slots of the
    request queue, the outcome flags and the response ring.  Every method is one step
    of the protocol in Ncq. */
module SataTags {
  import opened Bits
  import opened Ncq
  import opened Rings

  function TagsOf(q: seq<Cmd>): (t: seq<nat>)
    ensures |t| == |q| && forall i :: 0 <= i < |q| ==> t[i] == q[i].tag
  {
    seq(|q|, i requires 0 <= i < |q| => q[i].tag)
  }

  /** The outcome flags when every one of these commands has succeeded. */
  function Marked(done: seq<Done>, cs: seq<Cmd>): (d: seq<Done>)
    ensures |d| == |done|
    decreases |cs|
  {
    if cs == [] then done
    else Marked(if cs[0].tag < |done| then done[cs[0].tag := Rok] else done, cs[1..])
  }

  /** Theirs are Rok, and the others are as before. */
  lemma {:induction false} MarkedIs(done: seq<Done>, cs: seq<Cmd>, t: nat)
    requires t < |done|
    ensures Marked(done, cs)[t] == if t in TagsOf(cs) then Rok else done[t]
    decreases |cs|
  {
    if cs != [] {
      MarkedIs(if cs[0].tag < |done| then done[cs[0].tag := Rok] else done, cs[1..], t);
      assert TagsOf(cs) == [cs[0].tag] + TagsOf(cs[1..]);
    }
  }

  /** The memory of the tag ring. */
  datatype TagRing = TagRing(cells: seq<nat>, next: nat, inuse: nat, n: nat) {

    predicate Fits() {
      0 < n <= |cells| && next < |cells| && inuse <= n
    }

    function Taken(): TagRing
      requires Fits()
    {
      this.(next := (next + 1) % n, inuse := inuse + 1)
    }

    function Returned(tag: nat): TagRing
      requires Fits()
    {
      this.(cells := cells[(next - inuse + n) % n := tag], inuse := if inuse > 0 then inuse - 1 else 0)
    }

    function Identified(m: nat): TagRing
      requires m <= |cells|
    {
      this.(cells := seq(m, i requires 0 <= i => i) + cells[m..], n := m)
    }
  }

  // ---------- the driver ----------

  class Ctlr {
    const tags: array<nat>
    var tagnext: nat
    var tagsinuse: nat
    var ntags: nat
    const reqsdone: array<Done>
    /** The tag field of the command in each slot, and the disk's place in them. */
    const reqs: array<nat>
    var reqnext: nat
    var reqout: nat
    /** The tag field of each response, the disk's place and the handler's. */
    const resps: array<nat>
    var respin: nat
    var respout: nat
    /** The protocol's state, of which the disk's part is not the driver's to see. */
    ghost var p: State

    ghost predicate Separate()
    {
      && tags.Length == NSLOTS && reqsdone.Length == NSLOTS && reqs.Length == NSLOTS && resps.Length == NSLOTS
      && tags != reqs && tags != resps && reqs != resps
    }

    ghost function Tags(): TagRing
      reads this, tags
    {
      TagRing(tags[..], tagnext, tagsinuse, ntags)
    }

    /** The driver's memory represents the protocol's state. */
    ghost predicate Represents()
      reads this, tags, reqsdone, reqs, resps
    {
      && Separate()
      && ntags == p.ntags && tagsinuse == |p.held| && |p.free| + tagsinuse == ntags
      && Ring(tags[..], tagnext, ntags, p.free)
      && Ring(reqs[..], reqout, NSLOTS, TagsOf(p.queue))
      && reqnext == p.reqnext == Wrap(reqout, |p.queue|, NSLOTS)
      && Ring(resps[..], respout, NSLOTS, TagsOf(p.responses))
      && respin == Wrap(respout, |p.responses|, NSLOTS)
      && reqsdone[..] == p.done
    }

    /** satareset and satainit. */
    constructor ()
      ensures Represents() && p == Init()
      ensures fresh(tags) && fresh(reqsdone) && fresh(reqs) && fresh(resps)
    {
      tags := new nat[NSLOTS](_ => 0);
      reqsdone := new Done[NSLOTS](_ => Rok);
      reqs := new nat[NSLOTS](_ => 0);
      resps := new nat[NSLOTS](_ => 0);
      tagnext, tagsinuse, ntags := 0, 0, 1;
      reqnext, reqout, respin, respout := 0, 0, 0, 0;
      p := Init();
      new;
      RingEmpty(reqs[..], 0, NSLOTS);
      RingEmpty(resps[..], 0, NSLOTS);
      RingEmpty(tags[..], 0, 1);
      RingPut(tags[..], 0, 1, [], 0);
      assert tags[..][0 := 0] == tags[..] && [] + [0] == p.free;
      assert TagsOf(p.queue) == [] && TagsOf(p.responses) == [];
      assert reqsdone[..] == p.done;
    }

    /** io, from taking a tag to giving up the lock. */
    method IssueStep() returns (tag: nat)
      requires Represents() && Inv(p) && p.lock == Issuing && tagsinuse < ntags
      modifies this, reqsdone, reqs
      ensures Represents() && Enabled(old(p), Issue) && p == Apply(old(p), Issue)
      ensures tag == old(p).free[0] && Tags() == old(Tags()).Taken() && reqs[old(reqnext)] == tag
    {
      InvGuards(p);
      tag := TakeAndFill();
    }

    method TakeAndFill() returns (tag: nat)
      requires Represents() && p.lock == Issuing && p.free != [] && p.free[0] < NSLOTS
      requires |p.queue| < NSLOTS && p.nextid !in p.held
      modifies this, reqsdone, reqs
      ensures Represents() && Enabled(old(p), Issue) && p == Apply(old(p), Issue)
      ensures tag == old(p).free[0] && Tags() == old(Tags()).Taken() && reqs[old(reqnext)] == tag
    {
      tag := TakeTag();
      FillSlot(tag);
      reqsdone[tag] := Rtimeout;
      assert TagsOf(p.queue + [Cmd(p.nextid, tag)]) == TagsOf(p.queue) + [tag];
      p := Apply(p, Issue);
    }

    method TakeTag() returns (tag: nat)
      requires Separate() && Ring(tags[..], tagnext, ntags, p.free) && p.free != []
      modifies `tagnext, `tagsinuse
      ensures tag == p.free[0] == old(tags[tagnext]) && Ring(tags[..], tagnext, ntags, p.free[1..])
      ensures tagnext == (old(tagnext) + 1) % ntags && tagsinuse == old(tagsinuse) + 1
    {
      RingTake(tags[..], tagnext, ntags, p.free);
      tag := tags[tagnext];
      tagnext := (tagnext + 1) % ntags;
      tagsinuse := tagsinuse + 1;
    }

    method FillSlot(tag: nat)
      requires Separate() && Ring(reqs[..], reqout, NSLOTS, TagsOf(p.queue)) && |p.queue| < NSLOTS
      requires reqnext == Wrap(reqout, |p.queue|, NSLOTS)
      modifies `reqnext, reqs
      ensures Ring(reqs[..], reqout, NSLOTS, TagsOf(p.queue) + [tag])
      ensures reqs[old(reqnext)] == tag
      ensures reqnext == Wrap(reqout, |p.queue| + 1, NSLOTS) == (old(reqnext) + 1) % NSLOTS
    {
      RingPut(reqs[..], reqout, NSLOTS, TagsOf(p.queue), tag);
      var i := reqnext;
      reqnext := (reqnext + 1) % 32;
      reqs[i] := tag;
    }

    /** The disk fetches a command: what it reads is the oldest unfetched one. */
    method FetchStep() returns (tag: nat)
      requires Represents() && p.queue != []
      modifies this
      ensures Represents() && p == Apply(old(p), Fetch) && tag == old(p).queue[0].tag
    {
      RingTake(reqs[..], reqout, NSLOTS, TagsOf(p.queue));
      assert TagsOf(p.queue[1..]) == TagsOf(p.queue)[1..];
      tag := reqs[reqout];
      reqout := (reqout + 1) % 32;
      p := Apply(p, Fetch);
    }

    /** The disk answers a command it has fetched, in any order. */
    method RespondStep(ghost c: Cmd, tag: nat)
      requires Represents() && Inv(p) && Enabled(p, Respond(c)) && tag == c.tag
      modifies this, resps
      ensures Represents() && p == Apply(old(p), Respond(c))
    {
      InvGuards(p);
      RingPut(resps[..], respout, NSLOTS, TagsOf(p.responses), tag);
      assert TagsOf(p.responses + [c]) == TagsOf(p.responses) + [tag];
      resps[respin] := tag;
      respin := (respin + 1) % 32;
      p := Apply(p, Respond(c));
    }

    /** The response loop of sataintr: every answer of the ring, oldest first; but none,
        when there are as many as the ring has places, and it looks empty. */
    method ResponseLoop()
      requires Represents() && Inv(p)
      modifies this, reqsdone
      ensures Represents() && Inv(p)
      ensures p == if |old(p).responses| < NSLOTS then ConsumeAll(old(p)) else old(p)
      ensures |old(p).responses| < NSLOTS <==> p.responses == []
      ensures var tags := TagsOf(old(p).responses);
        forall t :: 0 <= t < NSLOTS ==>
          reqsdone[t] == if |tags| < NSLOTS && t in tags then Rok else old(reqsdone[t])
    {
      ghost var done, rs := reqsdone[..], p.responses;
      Drain();
      forall t | 0 <= t < NSLOTS
        ensures reqsdone[t] == if |rs| < NSLOTS && t in TagsOf(rs) then Rok else done[t]
      {
        MarkedIs(done, rs, t);
      }
    }

    /** Its loop. */
    method Drain()
      requires Represents() && Inv(p)
      modifies this, reqsdone
      ensures Represents() && Inv(p)
      ensures p == if |old(p).responses| < NSLOTS then ConsumeAll(old(p)) else old(p)
      ensures |old(p).responses| < NSLOTS <==> p.responses == []
      ensures var rs := old(p).responses;
        reqsdone[..] == if |rs| < NSLOTS then Marked(old(reqsdone[..]), rs) else old(reqsdone[..])
    {
      while respin != respout
        invariant Represents() && Inv(p)
        invariant p == old(p) || |p.responses| < NSLOTS
        invariant |old(p).responses| < NSLOTS ==> |p.responses| < NSLOTS && ConsumeAll(p) == ConsumeAll(old(p))
        invariant |old(p).responses| == NSLOTS ==> p == old(p) && reqsdone[..] == old(reqsdone[..])
        invariant Marked(reqsdone[..], p.responses) == Marked(old(reqsdone[..]), old(p).responses)
        decreases |p.responses|
      {
        InvGuards(p);
        ApplyInv(p, Consume);
        ConsumeStep();
      }
    }

    /** One turn of the response loop. */
    method ConsumeStep()
      requires Represents() && Inv(p) && respin != respout
      modifies this, reqsdone
      ensures Enabled(old(p), Consume) && Represents() && p == Apply(old(p), Consume)
      ensures reqsdone[..] == old(reqsdone[..])[old(p).responses[0].tag := Rok]
    {
      InvGuards(p);
      RingTake(resps[..], respout, NSLOTS, TagsOf(p.responses));
      assert TagsOf(p.responses[1..]) == TagsOf(p.responses)[1..];
      var tag := resps[respout];
      reqsdone[tag] := Rok;
      respout := (respout + 1) % 32;
      p := Apply(p, Consume);
    }

    /** The loop of sataabort. */
    method AbortStep()
      requires Represents()
      modifies this, reqsdone
      ensures Represents() && p == Apply(old(p), Abort)
      ensures forall t :: 0 <= t < reqsdone.Length ==> reqsdone[t] == Rfail
    {
      var i := 0;
      while i < reqsdone.Length
        invariant 0 <= i <= reqsdone.Length
        invariant forall k :: 0 <= k < i ==> reqsdone[k] == Rfail
        invariant p == old(p)
        modifies reqsdone
      {
        reqsdone[i] := Rfail;
        i := i + 1;
      }
      p := Apply(p, Abort);
      assert reqsdone[..] == p.done;
    }

    /** The end of io: success, and the tag back into the ring, or an error. */
    method WakeStep(ghost id: nat, tag: nat) returns (r: Done)
      requires Represents() && Inv(p) && id in p.waiting && id in p.held && tag == p.held[id]
      modifies this, tags
      ensures Enabled(old(p), Wake(id)) && Represents() && p == Apply(old(p), Wake(id))
      ensures r == old(p).done[tag] && Tags() == if r == Rok then old(Tags()).Returned(tag) else old(Tags())
    {
      InvGuards(p);
      r := Conclude(id, tag);
    }

    method Conclude(ghost id: nat, tag: nat) returns (r: Done)
      requires Represents() && Enabled(p, Wake(id)) && tag == p.held[id]
      modifies this, tags
      ensures Represents() && p == Apply(old(p), Wake(id))
      ensures r == old(p).done[tag] && Tags() == if r == Rok then old(Tags()).Returned(tag) else old(Tags())
    {
      r := reqsdone[tag];
      if r != Rok {
        p := Apply(p, Wake(id));
        return;
      }
      ghost var n := |p.free|;
      assert |p.held - {id}| == |p.held| - 1;
      RingPut(tags[..], tagnext, ntags, p.free, tag);
      ModIsWrap(tagnext, n, ntags);
      assert tagnext - tagsinuse + ntags == tagnext + n;
      tags[(tagnext - tagsinuse + ntags) % ntags] := tag;
      tagsinuse := tagsinuse - 1;
      p := Apply(p, Wake(id));
    }

    /** qlock, in io or in sataclaim. */
    method LockStep(claim: bool)
      requires Represents() && p.lock == Open
      modifies this
      ensures Represents() && p == Apply(old(p), if claim then LockClaim else LockIssue)
    {
      p := Apply(p, if claim then LockClaim else LockIssue);
    }

    /** The end of sataclaim, once no tags are in use. */
    method ClaimStep()
      requires Represents() && p.lock == Claiming && tagsinuse == 0
      modifies this
      ensures Enabled(old(p), ClaimIdle) && Represents() && p == Apply(old(p), ClaimIdle)
    {
      p := Apply(p, ClaimIdle);
    }

    method UnclaimStep()
      requires Represents() && p.lock == Claimed
      modifies this
      ensures Represents() && p == Apply(old(p), Unclaim)
    {
      p := Apply(p, Unclaim);
    }

    /** The part of identify that sets up n tags; see IdentifyExact for its demand on
        tagnext. */
    method IdentifyStep(n: nat)
      requires Represents() && p.lock == Claimed && p.held == map[] && 1 <= n <= NSLOTS
      requires tagnext < n
      modifies this, tags
      ensures tagnext == old(tagnext) && Represents() && Tags() == old(Tags()).Identified(n)
      ensures p == Apply(old(p), Identify(n, old(tagnext)))
    {
      ntags := n;
      FillTags(n);
      assert tags[..] == old(Tags()).Identified(n).cells;
      p := Apply(p, Identify(n, tagnext));
      forall i | 0 <= i < n
        ensures p.free[i] == tags[..][Wrap(tagnext, i, n)]
      {
      }
    }

    method FillTags(n: nat)
      requires Separate() && n <= NSLOTS
      modifies tags
      ensures forall k :: 0 <= k < n ==> tags[k] == k
      ensures forall k :: n <= k < NSLOTS ==> tags[k] == old(tags[k])
    {
      var i := 0;
      while i < n
        invariant 0 <= i <= n
        invariant forall k :: 0 <= k < i ==> tags[k] == k
        invariant forall k :: n <= k < NSLOTS ==> tags[k] == old(tags[k])
      {
        tags[i] := i;
        i := i + 1;
      }
    }

    /** The ring's window of ntags - tagsinuse entries from tagnext on, and the tags that
        requests have not returned, are the numbers below ntags, each once. */
    lemma WindowIsPermutation()
      requires Represents() && Inv(p)
      ensures tagsinuse <= ntags <= NSLOTS && tagnext < ntags
      ensures multiset(Front(tags[..], tagnext, ntags, ntags - tagsinuse)) + multiset(p.held.Values) ==
        multiset(Below(ntags))
    {
      RingIsFront(tags[..], tagnext, ntags, p.free);
      PartitionIsPermutation(p.free, p.held, p.ntags);
    }

    /** An index that meets the other end of its ring says that the ring is empty, or full. */
    lemma IndicesMeet()
      requires Represents()
      ensures reqnext == reqout <==> |p.queue| == 0 || |p.queue| == NSLOTS
      ensures respin == respout <==> |p.responses| == 0 || |p.responses| == NSLOTS
    {
    }
  }

  /** The k entries of an n-place ring from start on. */
  function Front(cells: seq<nat>, start: nat, n: nat, k: nat): seq<nat>
    requires 0 < n <= |cells|
  {
    seq(k, i requires 0 <= i => cells[(start + i) % n])
  }

  lemma RingIsFront(cells: seq<nat>, start: nat, n: nat, q: seq<nat>)
    requires Ring(cells, start, n, q)
    ensures n > 0 && Front(cells, start, n, |q|) == q
  {
    forall i | 0 <= i < |q|
      ensures cells[(start + i) % n] == q[i]
    {
      ModIsWrap(start, i, n);
      assert Nth(i);
    }
  }

  /** The protocol's state after the handler has seen every response. */
  ghost function ConsumeAll(s: State): State
    requires forall i :: 0 <= i < |s.responses| ==> s.responses[i].tag < |s.done|
    decreases |s.responses|
  {
    if s.responses == [] then s else ConsumeAll(Apply(s, Consume))
  }

  // ---------- identify with a tagnext left from more tags ----------

  /** The tags that the next k issues take. */
  function NextTags(tags: seq<nat>, next: nat, n: nat, k: nat): (r: seq<nat>)
    requires 0 < n <= |tags| && next < |tags|
    ensures |r| == k
    decreases k
  {
    if k == 0 then [] else [tags[next]] + NextTags(tags, (next + 1) % n, n, k - 1)
  }

  /** The disk knows every one of the tags, and none is used twice. */
  ghost predicate ValidTags(r: seq<nat>, n: nat) {
    && (forall i :: 0 <= i < |r| ==> r[i] < n)
    && (forall i, j :: 0 <= i < j < |r| ==> r[i] != r[j])
  }

  lemma {:induction false} NextTagsAfterFill(tags: seq<nat>, next: nat, n: nat, k: nat)
    requires 0 < n <= |tags| && next < n && k <= n && forall i :: 0 <= i < n ==> tags[i] == i
    ensures forall i :: 0 <= i < k ==> NextTags(tags, next, n, k)[i] == Wrap(next, i, n)
    decreases k
  {
    if k > 0 {
      ModIsWrap(next, 1, n);
      NextTagsAfterFill(tags, Wrap(next, 1, n), n, k - 1);
      forall i | 0 <= i < k
        ensures NextTags(tags, next, n, k)[i] == Wrap(next, i, n)
      {
        if i > 0 {
          assert NextTags(tags, next, n, k)[i] == NextTags(tags, Wrap(next, 1, n), n, k - 1)[i - 1];
        }
      }
    }
  }

  /** identify leaves tagnext alone.  The next n issues get n different tags that the
      disk knows exactly when the entry tagnext points at is the one it stands for
      modulo n; below n that is always so, and from n on it is an entry that identify
      did not fill. */
  lemma IdentifyExact(tags: seq<nat>, next: nat, n: nat)
    requires 0 < n <= |tags| && next < |tags| && forall i :: 0 <= i < n ==> tags[i] == i
    ensures ValidTags(NextTags(tags, next, n, n), n) <==> tags[next] == next % n
  {
    if next < n {
      DivUnique(next, n, 0, next);
      NextTagsAfterFill(tags, next, n, n);
    } else {
      NextTagsBeyond(tags, next, n);
    }
  }

  lemma NextTagsBeyond(tags: seq<nat>, next: nat, n: nat)
    requires 0 < n <= next < |tags| && forall i :: 0 <= i < n ==> tags[i] == i
    ensures ValidTags(NextTags(tags, next, n, n), n) <==> tags[next] == next % n
  {
    NextRemainder(next, n);
    var second, x := (next + 1) % n, tags[next];
    var rest := NextTags(tags, second, n, n - 1);
    var r := [x] + rest;
    NextTagsAfterFill(tags, second, n, n - 1);
    assert NextTags(tags, next, n, n) == r;
    assert forall i :: 0 <= i < n - 1 ==> r[i + 1] == rest[i] == Wrap(second, i, n);
    if x < n && x != next % n {
      var i := PlaceAfter(next % n, second, n, x);
      assert rest[i] == x;
      assert r[0] == r[i + 1];
    } else {
      NotAfter(next % n, second, n);
      assert r[0] == x;
    }
  }

  lemma PlaceAfter(k: nat, second: nat, n: nat, x: nat) returns (i: nat)
    requires k < n && x < n && x != k && second == if k + 1 < n then k + 1 else 0
    ensures i < n - 1 && Wrap(second, i, n) == x
  {
    i := if second <= x then x - second else x + n - second;
  }

  lemma NotAfter(k: nat, second: nat, n: nat)
    requires k < n && second == if k + 1 < n then k + 1 else 0
    ensures forall i :: 0 <= i < n - 1 ==> Wrap(second, i, n) != k
  {
  }

  lemma NextRemainder(next: nat, n: nat)
    requires 0 < n
    ensures (next + 1) % n == if next % n + 1 < n then next % n + 1 else 0
  {
    var q, r := next / n, next % n;
    if r + 1 < n {
      DivUnique(next + 1, n, q, r + 1);
    } else {
      assert next + 1 == (q + 1) * n;
      DivUnique(next + 1, n, q + 1, 0);
    }
  }

  // ---------- a run that ends in a shared tag ----------

  datatype TagOp = Take | Return(tag: nat) | Fill(n: nat)

  /** Whether steps can follow on each other, when out are the tags taken and not returned:
      only such a tag is returned, and identify comes when there is none. */
  predicate PossibleTagRun(t: TagRing, out: set<nat>, ops: seq<TagOp>)
    decreases |ops|
  {
    ops == [] ||
    match ops[0]
    case Take => t.Fits() && t.inuse < t.n && PossibleTagRun(t.Taken(), out + {t.cells[t.next]}, ops[1..])
    case Return(tag) => t.Fits() && tag in out && PossibleTagRun(t.Returned(tag), out - {tag}, ops[1..])
    case Fill(n) => out == {} && 0 < n <= |t.cells| && PossibleTagRun(t.Identified(n), out, ops[1..])
  }

  function TagRun(t: TagRing, out: set<nat>, ops: seq<TagOp>): TagRing
    requires PossibleTagRun(t, out, ops)
    decreases |ops|
  {
    if ops == [] then t else
    match ops[0]
    case Take => TagRun(t.Taken(), out + {t.cells[t.next]}, ops[1..])
    case Return(tag) => TagRun(t.Returned(tag), out - {tag}, ops[1..])
    case Fill(n) => TagRun(t.Identified(n), out, ops[1..])
  }

  lemma BackOne(next: nat, n: nat)
    requires next < n
    ensures ((next + 1) % n - 1 + n) % n == next
  {
    ModIsWrap(next, 1, n);
    DivUnique(Wrap(next, 1, n) - 1 + n, n, if next + 1 < n then 1 else 0, next);
  }

  lemma TakeFirst(t: TagRing, out: set<nat>, ops: seq<TagOp>)
    requires t.Fits() && t.inuse < t.n && PossibleTagRun(t.Taken(), out + {t.cells[t.next]}, ops)
    ensures PossibleTagRun(t, out, [Take] + ops)
    ensures TagRun(t, out, [Take] + ops) == TagRun(t.Taken(), out + {t.cells[t.next]}, ops)
  {
    assert ([Take] + ops)[1..] == ops;
  }

  lemma ReturnFirst(t: TagRing, out: set<nat>, tag: nat, ops: seq<TagOp>)
    requires t.Fits() && tag in out && PossibleTagRun(t.Returned(tag), out - {tag}, ops)
    ensures PossibleTagRun(t, out, [Return(tag)] + ops)
    ensures TagRun(t, out, [Return(tag)] + ops) == TagRun(t.Returned(tag), out - {tag}, ops)
  {
    assert ([Return(tag)] + ops)[1..] == ops;
  }

  /** A request by itself: its tag goes back to where it came from. */
  lemma OneRequest(t: TagRing, tag: nat, ops: seq<TagOp>)
    requires t.Fits() && t.inuse == 0 && t.next < t.n && t.cells[t.next] == tag
    requires PossibleTagRun(t.(next := (t.next + 1) % t.n), {}, ops)
    ensures PossibleTagRun(t, {}, [Take, Return(tag)] + ops)
    ensures TagRun(t, {}, [Take, Return(tag)] + ops) == TagRun(t.(next := (t.next + 1) % t.n), {}, ops)
  {
    var u, v := t.Taken(), t.(next := (t.next + 1) % t.n);
    BackOne(t.next, t.n);
    ModIsWrap(t.next, 1, t.n);
    assert t.cells[t.next := tag] == t.cells;
    assert u.Returned(tag) == v;
    assert {tag} - {tag} == {};
    ReturnFirst(u, {tag}, tag, ops);
    assert {} + {tag} == {tag};
    TakeFirst(t, {}, [Return(tag)] + ops);
    assert [Take, Return(tag)] + ops == [Take] + ([Return(tag)] + ops);
  }

  /** A disk with three tags serves two requests, and is replaced by one with two; then the
      next request gets tag 2, which that disk does not have. */
  lemma IdentifyExample(t: TagRing)
    requires |t.cells| == NSLOTS && t.next == 0 && t.inuse == 0 && t.n == 1
    ensures var ops := [Fill(3)] + ([Take, Return(0)] + ([Take, Return(1)] + [Fill(2)]));
      && PossibleTagRun(t, {}, ops)
      && var u := TagRun(t, {}, ops);
         && |u.cells| == NSLOTS && u.n == 2 && u.next == 2 && u.cells[u.next] == 2
         && !ValidTags(NextTags(u.cells, u.next, u.n, u.n), u.n)
  {
    var last := [Fill(2)];
    var a := t.Identified(3);
    var b, c := a.(next := 1), a.(next := 2);
    assert last[1..] == [];
    assert PossibleTagRun(c, {}, last) && TagRun(c, {}, last) == c.Identified(2);
    OneRequest(b, 1, last);
    OneRequest(a, 0, [Take, Return(1)] + last);
    var ops := [Fill(3)] + ([Take, Return(0)] + ([Take, Return(1)] + last));
    assert ops[1..] == [Take, Return(0)] + ([Take, Return(1)] + last);
    var u := c.Identified(2);
    assert TagRun(t, {}, ops) == u && u.cells[2] == 2;
    IdentifyExact(u.cells, 2, 2);
  }
}
