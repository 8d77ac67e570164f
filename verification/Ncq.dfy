/** The protocol between the callers of the sata driver's io, its interrupt handler
    and the disk (devsata.c): queued commands with tags, completed in any order.  Each
    event is one atomic step; the release of a tag, which the driver does after giving
    up its lock, is one step too. */
module Ncq {

  const NSLOTS := 32

  datatype Done = Rok | Rtimeout | Rfail

  /** A command, as the disk gets it: id tells apart the requests that use a tag one
      after the other, and is not known to the disk or the driver. */
  datatype Cmd = Cmd(id: nat, tag: nat)

  datatype Lock = Open | Issuing | Claiming | Claimed

  datatype State = State(
    ntags: nat,
    free: seq<nat>,            // tags in the ring, next one first
    held: map<nat, nat>,       // the tags of requests that have not returned theirs
    waiting: set<nat>,         // those whose caller still waits
    done: seq<Done>,           // outcome, by tag
    reqnext: nat,              // slot for the next command
    queue: seq<Cmd>,           // in slots, not fetched by the disk yet
    inflight: set<Cmd>,        // fetched, not answered
    responses: seq<Cmd>,       // answered, not seen by the interrupt handler
    lock: Lock,
    nextid: nat,
    consumed: set<nat>,        // requests whose response the handler has seen
    succeeded: set<nat>)       // requests io has reported success for

  datatype Event =
    | LockIssue                // io has the lock
    | Issue                    // io takes a tag and a slot, and gives up the lock
    | Fetch                    // the disk fetches the oldest command
    | Respond(c: Cmd)          // the disk answers a command
    | Lose(c: Cmd)             // the disk forgets a command
    | Consume                  // the handler sees the oldest response
    | Abort                    // the handler fails everything
    | Wake(id: nat)            // a caller returns, after a wakeup or a timeout
    | LockClaim                // sataclaim has the lock
    | ClaimIdle                // sataclaim sees no tags in use
    | Identify(n: nat, k: nat) // the disk's number of tags becomes known
    | Unclaim

  predicate Enabled(s: State, e: Event) {
    match e
    case LockIssue => s.lock == Open
    case Issue => s.lock == Issuing && s.free != [] && s.free[0] < |s.done|
    case Fetch => s.queue != []
    case Respond(c) => c in s.inflight
    case Lose(c) => c in s.inflight
    case Consume => s.responses != [] && s.responses[0].tag < |s.done|
    case Abort => true
    case Wake(id) => id in s.waiting && id in s.held && s.held[id] < |s.done|
    case LockClaim => s.lock == Open
    case ClaimIdle => s.lock == Claiming && s.held == map[]
    case Identify(n, k) => s.lock == Claimed && k < n <= NSLOTS
    case Unclaim => s.lock == Claimed
  }

  /** The numbers below n, starting with k. */
  function Rotation(k: nat, n: nat): (r: seq<nat>)
    requires k < n
    ensures |r| == n && forall i :: 0 <= i < n ==> r[i] == if k + i < n then k + i else k + i - n
  {
    seq(n, i requires 0 <= i < n => if k + i < n then k + i else k + i - n)
  }

  function Apply(s: State, e: Event): State
    requires Enabled(s, e)
  {
    match e
    case LockIssue => s.(lock := Issuing)
    case Issue =>
      var id, tag := s.nextid, s.free[0];
      s.(free := s.free[1..], held := s.held[id := tag], waiting := s.waiting + {id},
         done := s.done[tag := Rtimeout], reqnext := (s.reqnext + 1) % NSLOTS,
         queue := s.queue + [Cmd(id, tag)], lock := Open, nextid := id + 1)
    case Fetch => s.(queue := s.queue[1..], inflight := s.inflight + {s.queue[0]})
    case Respond(c) => s.(inflight := s.inflight - {c}, responses := s.responses + [c])
    case Lose(c) => s.(inflight := s.inflight - {c})
    case Consume =>
      var c := s.responses[0];
      s.(responses := s.responses[1..], done := s.done[c.tag := Rok], consumed := s.consumed + {c.id})
    case Abort => s.(done := seq(|s.done|, _ => Rfail))
    case Wake(id) =>
      var tag := s.held[id];
      if s.done[tag] == Rok then
        s.(free := s.free + [tag], held := s.held - {id}, waiting := s.waiting - {id},
           succeeded := s.succeeded + {id})
      else
        s.(waiting := s.waiting - {id})
    case LockClaim => s.(lock := Claiming)
    case ClaimIdle => s.(lock := Claimed)
    case Identify(n, k) => s.(ntags := n, free := Rotation(k, n))
    case Unclaim => s.(lock := Open)
  }

  /** After satainit: one tag. */
  function Init(): State {
    State(1, [0], map[], {}, seq(NSLOTS, _ => Rok), 0, [], {}, [], Open, 0, {}, {})
  }

  // ---------- the invariant ----------

  /** The tags in the ring and the tags held are all the tags, each once. */
  ghost predicate TagsPartition(s: State) {
    && 1 <= s.ntags <= NSLOTS
    && |s.free| + |s.held| == s.ntags
    && (forall i :: 0 <= i < |s.free| ==> s.free[i] < s.ntags)
    && (forall i, j :: 0 <= i < j < |s.free| ==> s.free[i] != s.free[j])
    && (forall id :: id in s.held ==> s.held[id] < s.ntags && s.held[id] !in s.free)
    && (forall id, id' :: id in s.held && id' in s.held && id != id' ==> s.held[id] != s.held[id'])
  }

  /** A command on its way belongs to a request that still holds its tag, and no
      response of that request has been seen. */
  ghost predicate Owned(s: State, c: Cmd) {
    c.id in s.held && s.held[c.id] == c.tag && c.id !in s.consumed
  }

  ghost predicate CommandsOwned(s: State) {
    && (forall i :: 0 <= i < |s.queue| ==> Owned(s, s.queue[i]))
    && (forall c :: c in s.inflight ==> Owned(s, c))
    && (forall i :: 0 <= i < |s.responses| ==> Owned(s, s.responses[i]))
  }

  /** A request has at most one command on its way. */
  ghost predicate CommandsOnce(s: State) {
    && (forall i, j :: 0 <= i < j < |s.queue| ==> s.queue[i].id != s.queue[j].id)
    && (forall i, j :: 0 <= i < j < |s.responses| ==> s.responses[i].id != s.responses[j].id)
    && (forall i, j :: 0 <= i < |s.queue| && 0 <= j < |s.responses| ==> s.queue[i].id != s.responses[j].id)
    && (forall i, c :: 0 <= i < |s.queue| && c in s.inflight ==> s.queue[i].id != c.id)
    && (forall j, c :: 0 <= j < |s.responses| && c in s.inflight ==> s.responses[j].id != c.id)
  }

  ghost predicate History(s: State) {
    && s.waiting <= s.held.Keys
    && (forall id :: id in s.held ==> id < s.nextid)
    && (forall id :: id in s.consumed ==> id < s.nextid)
    && s.succeeded <= s.consumed
    && (forall id :: id in s.waiting && id in s.held && s.held[id] < |s.done| && s.done[s.held[id]] == Rok ==>
          id in s.consumed)
  }

  ghost predicate Inv(s: State) {
    && |s.done| == NSLOTS && s.reqnext < NSLOTS
    && TagsPartition(s) && CommandsOwned(s) && CommandsOnce(s) && History(s)
    && (s.lock == Claimed ==> s.held == map[])
  }

  lemma InitInv()
    ensures Inv(Init())
  {
  }

  lemma IssuePartition(s: State)
    requires Inv(s) && Enabled(s, Issue)
    ensures TagsPartition(Apply(s, Issue))
  {
    var t := Apply(s, Issue);
    assert s.nextid !in s.held;
    assert forall i :: 0 <= i < |t.free| ==> t.free[i] == s.free[i + 1];
    assert s.free[0] !in t.free;
  }

  lemma WakePartition(s: State, id: nat)
    requires Inv(s) && Enabled(s, Wake(id))
    ensures TagsPartition(Apply(s, Wake(id)))
  {
    var t := Apply(s, Wake(id));
    if s.done[s.held[id]] == Rok {
      assert |t.held| == |s.held| - 1;
      assert forall x :: x in t.held ==> x != id && x in s.held && t.held[x] == s.held[x] != s.held[id];
    }
  }

  lemma PartitionKept(s: State, e: Event)
    requires Inv(s) && Enabled(s, e)
    ensures TagsPartition(Apply(s, e))
  {
    if e.Issue? {
      IssuePartition(s);
    } else if e.Wake? {
      WakePartition(s, e.id);
    }
  }

  lemma IssueOwned(s: State)
    requires Inv(s) && Enabled(s, Issue)
    ensures CommandsOwned(Apply(s, Issue))
  {
  }

  lemma WakeOwned(s: State, id: nat)
    requires Inv(s) && Enabled(s, Wake(id))
    ensures CommandsOwned(Apply(s, Wake(id)))
  {
  }

  lemma OwnedKept(s: State, e: Event)
    requires Inv(s) && Enabled(s, e)
    ensures CommandsOwned(Apply(s, e))
  {
    if e.Issue? {
      IssueOwned(s);
    } else if e.Wake? {
      WakeOwned(s, e.id);
    }
  }

  lemma RespondOnce(s: State, c: Cmd)
    requires Inv(s) && Enabled(s, Respond(c))
    ensures CommandsOnce(Apply(s, Respond(c)))
  {
    assert Owned(s, c);
    assert forall d :: d in s.inflight && d.id == c.id ==> Owned(s, d) && d == c;
  }

  lemma IssueOnce(s: State)
    requires Inv(s) && Enabled(s, Issue)
    ensures CommandsOnce(Apply(s, Issue))
  {
    assert s.nextid !in s.held;
  }

  lemma FetchOnce(s: State)
    requires Inv(s) && Enabled(s, Fetch)
    ensures CommandsOnce(Apply(s, Fetch))
  {
    var t := Apply(s, Fetch);
    assert forall i :: 0 <= i < |t.queue| ==> t.queue[i] == s.queue[i + 1];
  }

  lemma OnceKept(s: State, e: Event)
    requires Inv(s) && Enabled(s, e)
    ensures CommandsOnce(Apply(s, e))
  {
    if e.Respond? {
      RespondOnce(s, e.c);
    } else if e.Issue? {
      IssueOnce(s);
    } else if e.Fetch? {
      FetchOnce(s);
    }
  }

  lemma HistoryKept(s: State, e: Event)
    requires Inv(s) && Enabled(s, e)
    ensures History(Apply(s, e))
  {
  }

  lemma ApplyInv(s: State, e: Event)
    requires Inv(s) && Enabled(s, e)
    ensures Inv(Apply(s, e))
  {
    PartitionKept(s, e);
    OwnedKept(s, e);
    OnceKept(s, e);
    HistoryKept(s, e);
  }

  lemma {:induction false} QueueInHeld(q: seq<Cmd>, ids: set<nat>)
    requires forall i, j :: 0 <= i < j < |q| ==> q[i].id != q[j].id
    requires forall i :: 0 <= i < |q| ==> q[i].id in ids
    ensures |q| <= |ids|
    decreases |q|
  {
    if q != [] {
      var id := q[|q| - 1].id;
      QueueInHeld(q[..|q| - 1], ids - {id});
    }
  }

  /** Unfetched commands, and answers not seen, number at most the tags in use; while a
      command is with the disk, fewer. */
  lemma QueueBound(s: State)
    requires Inv(s)
    ensures |s.queue| <= |s.held| && |s.responses| <= |s.held|
    ensures s.inflight != {} ==> |s.responses| < |s.held|
  {
    QueueInHeld(s.queue, s.held.Keys);
    QueueInHeld(s.responses, s.held.Keys);
    assert |s.held.Keys| == |s.held|;
    if s.inflight != {} {
      var c :| c in s.inflight;
      assert Owned(s, c);
      QueueInHeld(s.responses, s.held.Keys - {c.id});
    }
  }

  /** What the driver and the disk rely on when they take a step. */
  lemma InvGuards(s: State)
    requires Inv(s)
    ensures |s.free| + |s.held| == s.ntags
    ensures |s.held| < s.ntags ==> s.free != [] && s.free[0] < NSLOTS && |s.queue| < NSLOTS
    ensures s.nextid !in s.held
    ensures s.inflight != {} ==> |s.responses| < NSLOTS
    ensures forall i :: 0 <= i < |s.responses| ==> s.responses[i].tag < NSLOTS
    ensures forall id :: id in s.waiting ==> Enabled(s, Wake(id))
    ensures s.lock == Claimed ==> s.held == map[]
  {
    QueueBound(s);
    assert forall i :: 0 <= i < |s.responses| ==> Owned(s, s.responses[i]);
  }

  // ---------- runs ----------

  ghost predicate IsRun(es: seq<Event>)
    decreases |es|, 0
  {
    es == [] || (IsRun(es[..|es| - 1]) && Enabled(After(es[..|es| - 1]), es[|es| - 1]))
  }

  ghost function After(es: seq<Event>): State
    requires IsRun(es)
    decreases |es|, 1
  {
    if es == [] then Init() else Apply(After(es[..|es| - 1]), es[|es| - 1])
  }

  lemma {:induction false} RunInv(es: seq<Event>)
    requires IsRun(es)
    ensures Inv(After(es))
    decreases |es|
  {
    if es == [] {
      InitInv();
    } else {
      RunInv(es[..|es| - 1]);
      ApplyInv(After(es[..|es| - 1]), es[|es| - 1]);
    }
  }

  /** In every run, the ring together with the tags of the requests that have not
      returned theirs is a permutation of the numbers below ntags. */
  lemma TagsArePermutation(es: seq<Event>)
    requires IsRun(es)
    ensures var s := After(es);
      multiset(s.free) + multiset(s.held.Values) == multiset(Below(s.ntags))
  {
    RunInv(es);
    var s := After(es);
    PartitionIsPermutation(s.free, s.held, s.ntags);
  }

  lemma PartitionIsPermutation(q: seq<nat>, m: map<nat, nat>, n: nat)
    requires |q| + |m| == n
    requires forall i :: 0 <= i < |q| ==> q[i] < n
    requires forall i, j :: 0 <= i < j < |q| ==> q[i] != q[j]
    requires forall x :: x in m ==> m[x] < n && m[x] !in q
    requires forall x, y :: x in m && y in m && x != y ==> m[x] != m[y]
    ensures multiset(q) + multiset(m.Values) == multiset(Below(n))
  {
    var ring, out := set i | 0 <= i < |q| :: q[i], m.Values;
    DistinctCount(q);
    DistinctMultiset(q);
    ValuesCount(m);
    assert ring !! out;
    SubsetIsAll(ring + out, Below(n));
    assert multiset(ring) + multiset(out) == multiset(ring + out);
  }

  lemma {:induction false} DistinctCount(q: seq<nat>)
    requires forall i, j :: 0 <= i < j < |q| ==> q[i] != q[j]
    ensures |set i | 0 <= i < |q| :: q[i]| == |q|
    decreases |q|
  {
    if q != [] {
      var r := q[..|q| - 1];
      DistinctCount(r);
      var last := q[|q| - 1];
      assert (set i | 0 <= i < |q| :: q[i]) == (set i | 0 <= i < |r| :: r[i]) + {last};
      assert last !in (set i | 0 <= i < |r| :: r[i]);
    }
  }

  lemma {:induction false} DistinctMultiset(q: seq<nat>)
    requires forall i, j :: 0 <= i < j < |q| ==> q[i] != q[j]
    ensures multiset(q) == multiset(set i | 0 <= i < |q| :: q[i])
    decreases |q|
  {
    if q != [] {
      var r := q[..|q| - 1];
      DistinctMultiset(r);
      var last := q[|q| - 1];
      assert q == r + [last];
      assert (set i | 0 <= i < |q| :: q[i]) == (set i | 0 <= i < |r| :: r[i]) + {last};
      assert last !in (set i | 0 <= i < |r| :: r[i]);
    }
  }

  lemma {:induction false} ValuesCount(m: map<nat, nat>)
    requires forall x, y :: x in m && y in m && x != y ==> m[x] != m[y]
    ensures |m.Values| == |m|
    decreases |m|
  {
    if m != map[] {
      var x :| x in m;
      var n := m - {x};
      ValuesCount(n);
      assert forall y :: y in n ==> n[y] == m[y] && m[y] != m[x];
      assert forall y :: y in m ==> y == x || (y in n && n[y] == m[y]);
      assert m.Values == n.Values + {m[x]};
      assert |n| == |m| - 1;
    }
  }

  /** The numbers below n. */
  ghost function Below(n: nat): (b: set<nat>)
    ensures |b| == n && forall t: nat :: t in b <==> t < n
  {
    if n == 0 then {} else
    var b := Below(n - 1);
    assert n - 1 !in b;
    b + {n - 1}
  }

  lemma SubsetIsAll(a: set<nat>, b: set<nat>)
    requires a <= b && |a| == |b|
    ensures a == b
  {
    assert |b - a| == |b| - |a|;
  }

  /** No two requests that have not returned their tags share one. */
  lemma NoSharedTag(es: seq<Event>, id: nat, id': nat)
    requires IsRun(es) && id in After(es).held && id' in After(es).held
    ensures After(es).held[id] == After(es).held[id'] <==> id == id'
  {
    RunInv(es);
  }

  // ---------- full rings ----------

  lemma Extend(es: seq<Event>, e: Event) returns (more: seq<Event>)
    requires IsRun(es) && Enabled(After(es), e)
    ensures IsRun(more) && After(more) == Apply(After(es), e)
  {
    more := es + [e];
    assert more[..|more| - 1] == es;
  }

  /** A disk with n tags. */
  lemma RunToTags(n: nat) returns (es: seq<Event>)
    requires 1 <= n <= NSLOTS
    ensures IsRun(es) && After(es) == Init().(ntags := n, free := Rotation(0, n))
  {
    es := Extend([], LockClaim);
    es := Extend(es, ClaimIdle);
    es := Extend(es, Identify(n, 0));
    es := Extend(es, Unclaim);
  }

  /** All n tags are out, and the disk has fetched nothing. */
  lemma {:induction false} RunToIssued(n: nat, k: nat) returns (es: seq<Event>)
    requires 1 <= n <= NSLOTS && k <= n
    ensures IsRun(es)
    ensures var s := After(es);
      s.ntags == n && |s.queue| == k && |s.free| == n - k && s.inflight == {} && s.responses == [] && s.lock == Open
    decreases k
  {
    if k == 0 {
      es := RunToTags(n);
    } else {
      es := RunToIssued(n, k - 1);
      RunInv(es);
      InvGuards(After(es));
      es := Extend(es, LockIssue);
      es := Extend(es, Issue);
    }
  }

  /** The disk answers everything before the handler runs. */
  lemma {:induction false} RunToAnswered(n: nat, k: nat) returns (es: seq<Event>)
    requires 1 <= n <= NSLOTS && k <= n
    ensures IsRun(es)
    ensures var s := After(es); s.ntags == n && |s.queue| == n - k && s.inflight == {} && |s.responses| == k
    decreases k
  {
    if k == 0 {
      es := RunToIssued(n, n);
    } else {
      es := RunToAnswered(n, k - 1);
      var c := After(es).queue[0];
      es := Extend(es, Fetch);
      es := Extend(es, Respond(c));
    }
  }

  /** With 32 tags, and with no fewer, there are runs in which 32 commands wait to be
      fetched, and runs in which 32 answers wait to be seen: then the indices of the ring
      are as if it were empty. */
  lemma FullRingsExactlyWhen(n: nat)
    requires 1 <= n <= NSLOTS
    ensures n == NSLOTS <==> exists es :: IsRun(es) && After(es).ntags == n && |After(es).queue| == NSLOTS
    ensures n == NSLOTS <==> exists es :: IsRun(es) && After(es).ntags == n && |After(es).responses| == NSLOTS
  {
    if n == NSLOTS {
      var es := RunToIssued(n, n);
      var es' := RunToAnswered(n, n);
      assert IsRun(es) && After(es).ntags == n && |After(es).queue| == NSLOTS;
      assert IsRun(es') && After(es').ntags == n && |After(es').responses| == NSLOTS;
    } else {
      forall es | IsRun(es) && After(es).ntags == n
        ensures |After(es).queue| < NSLOTS && |After(es).responses| < NSLOTS
      {
        RunInv(es);
        QueueBound(After(es));
      }
    }
  }

  // ---------- slots ----------

  /** The slot of the i-th command that waits to be fetched. */
  function Slot(s: State, i: nat): nat
    requires i < |s.queue|
  {
    (s.reqnext - |s.queue| + i) % NSLOTS
  }

  /** Counting tags is enough to keep slots apart: as long as a tag can be taken, the slot
      that io fills next holds no command that the disk has yet to fetch. */
  lemma FreeTagMeansFreeSlot(es: seq<Event>, i: nat)
    requires IsRun(es) && Enabled(After(es), Issue) && i < |After(es).queue|
    ensures Slot(After(es), i) != After(es).reqnext
    ensures |After(es).queue| <= |After(es).held| < After(es).ntags <= NSLOTS
  {
    RunInv(es);
    QueueBound(After(es));
    OtherSlot(After(es).reqnext, |After(es).queue|, i);
  }

  lemma OtherSlot(next: nat, n: nat, i: nat)
    requires next < NSLOTS && i < n < NSLOTS
    ensures (next - n + i) % NSLOTS != next
  {
  }

  // ---------- claims ----------

  /** While the controller is claimed, no tag is in use, nothing is on its way, and no
      request can be issued. */
  lemma ClaimIsExclusive(es: seq<Event>)
    requires IsRun(es) && After(es).lock == Claimed
    ensures var s := After(es);
      && s.held == map[] && s.queue == [] && s.inflight == {} && s.responses == []
      && |s.free| == s.ntags
      && !Enabled(s, Issue) && !Enabled(s, LockIssue)
  {
    RunInv(es);
    var s := After(es);
    assert s.queue != [] ==> Owned(s, s.queue[0]);
    assert s.responses != [] ==> Owned(s, s.responses[0]);
  }

  // ---------- success is earned ----------

  /** Event i of the run issues request id. */
  ghost predicate IssuedAt(es: seq<Event>, i: nat, id: nat)
    requires IsRun(es)
  {
    i < |es| && es[i] == Issue && IsRun(es[..i]) && After(es[..i]).nextid == id
  }

  /** At event j the handler consumes a response that carries the tag request id holds,
      and it is the answer to that request. */
  ghost predicate AnsweredAt(es: seq<Event>, j: nat, id: nat)
    requires IsRun(es)
  {
    && j < |es| && es[j] == Consume && IsRun(es[..j])
    && var s := After(es[..j]);
      s.responses != [] && s.responses[0].id == id && id in s.held && s.responses[0].tag == s.held[id]
  }

  lemma {:induction false} EveryIdIssued(es: seq<Event>, id: nat) returns (i: nat)
    requires IsRun(es) && id < After(es).nextid
    ensures IssuedAt(es, i, id)
    decreases |es|
  {
    var n := |es| - 1;
    if id < After(es[..n]).nextid {
      i := EveryIdIssued(es[..n], id);
      assert es[..n][..i] == es[..i];
    } else {
      i := n;
    }
  }

  lemma {:induction false} EveryConsumedAnswered(es: seq<Event>, id: nat) returns (j: nat)
    requires IsRun(es) && id in After(es).consumed
    ensures AnsweredAt(es, j, id)
    decreases |es|
  {
    var n := |es| - 1;
    if id in After(es[..n]).consumed {
      j := EveryConsumedAnswered(es[..n], id);
      assert es[..n][..j] == es[..j];
    } else {
      RunInv(es[..n]);
      j := n;
      assert Owned(After(es[..n]), After(es[..n]).responses[0]);
    }
  }

  /** io reports success for a request only if, after the request was issued, the
      handler consumed a response that carries its tag and answers it; so a late
      response to a timed-out request is never credited to a later one. */
  lemma SuccessIsEarned(es: seq<Event>, id: nat) returns (i: nat, j: nat)
    requires IsRun(es) && id in After(es).succeeded
    ensures i < j && IssuedAt(es, i, id) && AnsweredAt(es, j, id)
  {
    RunInv(es);
    j := EveryConsumedAnswered(es, id);
    RunInv(es[..j]);
    i := EveryIdIssued(es[..j], id);
    assert es[..j][..i] == es[..i];
  }

  // ---------- answers are credited ----------

  /** What has last happened to a request: it was issued, its own answer was consumed, or
      everything was aborted. */
  ghost function Outcome(es: seq<Event>, id: nat): Done
    requires IsRun(es)
    decreases |es|
  {
    if es == [] then Rtimeout
    else
      var before := es[..|es| - 1];
      match es[|es| - 1]
      case Abort => Rfail
      case Consume => if After(before).responses[0].id == id then Rok else Outcome(before, id)
      case Issue => if After(before).nextid == id then Rtimeout else Outcome(before, id)
      case _ => Outcome(before, id)
  }

  /** The outcome flag of a request's tag. */
  predicate Flag(s: State, id: nat, d: Done) {
    id in s.held && s.held[id] < |s.done| && s.done[s.held[id]] == d
  }

  lemma OutcomeStep(s: State, e: Event, id: nat, d: Done)
    requires Inv(s) && Enabled(s, e) && id in Apply(s, e).waiting
    requires id in s.waiting ==> Flag(s, id, d)
    ensures id in s.waiting || (e.Issue? && s.nextid == id)
    ensures Flag(Apply(s, e), id,
      if e.Abort? then Rfail
      else if e.Consume? && s.responses[0].id == id then Rok
      else if e.Issue? && s.nextid == id then Rtimeout
      else d)
  {
    ApplyInv(s, e);
    if e.Consume? {
      assert Owned(s, s.responses[0]);
    }
  }

  /** The flag under the tag of a request that waits says what has last happened to it. */
  lemma {:induction false} OutcomeIsKept(es: seq<Event>, id: nat)
    requires IsRun(es) && id in After(es).waiting
    ensures Flag(After(es), id, Outcome(es, id))
    decreases |es|
  {
    if es != [] {
      var n := |es| - 1;
      RunInv(es[..n]);
      if id in After(es[..n]).waiting {
        OutcomeIsKept(es[..n], id);
      }
      OutcomeStep(After(es[..n]), es[n], id, Outcome(es[..n], id));
    }
  }

  lemma ConsumedStays(s: State, e: Event, id: nat)
    requires Inv(s) && Enabled(s, e) && id in s.consumed
    ensures id in Apply(s, e).consumed && id != s.nextid
  {
  }

  lemma {:induction false} AnswerLasts(es: seq<Event>, j: nat, id: nat)
    requires IsRun(es) && AnsweredAt(es, j, id) && forall k :: j < k < |es| ==> !es[k].Abort?
    ensures Outcome(es, id) == Rok && id in After(es).consumed
    decreases |es|
  {
    var n := |es| - 1;
    if j < n {
      assert es[..n][..j] == es[..j];
      AnswerLasts(es[..n], j, id);
      RunInv(es[..n]);
      ConsumedStays(After(es[..n]), es[n], id);
    }
  }

  lemma WakeResult(s: State, id: nat)
    requires Inv(s) && id in s.waiting && id !in s.succeeded
    ensures Enabled(s, Wake(id)) && (id in Apply(s, Wake(id)).succeeded <==> Flag(s, id, Rok))
    ensures var t := Apply(s, Wake(id));
      Flag(s, id, Rok) ==> id !in t.waiting && id !in t.held && t.free == s.free + [s.held[id]]
  {
  }

  /** A request whose answer has been consumed, and that no abort came after, succeeds when
      its caller wakes up, and its tag goes to the end of the ring. */
  lemma AnsweredSucceeds(es: seq<Event>, j: nat, id: nat)
    requires IsRun(es) && AnsweredAt(es, j, id) && forall k :: j < k < |es| ==> !es[k].Abort?
    requires id in After(es).waiting
    ensures var s := After(es); Flag(s, id, Rok) && Enabled(s, Wake(id))
    ensures var s := After(es); var t := Apply(s, Wake(id));
      && id in t.succeeded && id !in t.waiting && id !in t.held
      && t.free == s.free + [s.held[id]]
  {
    RunInv(es);
    OutcomeIsKept(es, id);
    AnswerLasts(es, j, id);
    HeldNotSucceeded(es, id);
    WakeResult(After(es), id);
  }

  /** The answer to a request has been consumed, and no abort came after. */
  ghost predicate Answered(es: seq<Event>, id: nat)
    requires IsRun(es)
  {
    exists j: nat :: AnsweredAt(es, j, id) && forall k :: j < k < |es| ==> !es[k].Abort?
  }

  /** A request that waits succeeds when it wakes up exactly if it has been answered; else
      its tag stays out. */
  lemma SucceedsExactlyWhen(es: seq<Event>, id: nat)
    requires IsRun(es) && id in After(es).waiting
    ensures Enabled(After(es), Wake(id))
    ensures id in Apply(After(es), Wake(id)).succeeded <==> Answered(es, id)
  {
    RunInv(es);
    OutcomeIsKept(es, id);
    HeldNotSucceeded(es, id);
    WakeResult(After(es), id);
    if Outcome(es, id) == Rok {
      var j := LastAnswer(es, id);
    } else if Answered(es, id) {
      var j: nat :| AnsweredAt(es, j, id) && forall k :: j < k < |es| ==> !es[k].Abort?;
      AnswerLasts(es, j, id);
    }
  }

  lemma {:induction false} LastAnswer(es: seq<Event>, id: nat) returns (j: nat)
    requires IsRun(es) && Outcome(es, id) == Rok
    ensures AnsweredAt(es, j, id) && forall k :: j < k < |es| ==> !es[k].Abort?
    decreases |es|
  {
    var n := |es| - 1;
    RunInv(es[..n]);
    if es[n].Consume? && After(es[..n]).responses[0].id == id {
      j := n;
      assert Owned(After(es[..n]), After(es[..n]).responses[0]);
    } else {
      j := LastAnswer(es[..n], id);
      assert es[..n][..j] == es[..j];
    }
  }

  lemma NotSucceededStep(s: State, e: Event, id: nat)
    requires Inv(s) && Enabled(s, e) && id in Apply(s, e).held && (id in s.held ==> id !in s.succeeded)
    ensures id !in Apply(s, e).succeeded
  {
    assert s.nextid !in s.succeeded;
  }

  /** A request that has succeeded holds no tag. */
  lemma {:induction false} HeldNotSucceeded(es: seq<Event>, id: nat)
    requires IsRun(es) && id in After(es).held
    ensures id !in After(es).succeeded
    decreases |es|
  {
    if es != [] {
      var n := |es| - 1;
      RunInv(es[..n]);
      if id in After(es[..n]).held {
        HeldNotSucceeded(es[..n], id);
      }
      NotSucceededStep(After(es[..n]), es[n], id);
    }
  }

  /** A request that has given up, with the tag it keeps. */
  ghost predicate Errored(s: State, id: nat, tag: nat) {
    id in s.held && s.held[id] == tag && id !in s.waiting && tag !in s.free && id < s.nextid
  }

  lemma ErroredKept(s: State, e: Event, id: nat, tag: nat)
    requires Inv(s) && Enabled(s, e) && Errored(s, id, tag)
    ensures Errored(Apply(s, e), id, tag)
  {
    ApplyInv(s, e);
  }

  /** The tag of a request that ended in an error never returns to the ring. */
  lemma {:induction false} ErroredTagsStay(es: seq<Event>, i: nat, id: nat, tag: nat)
    requires IsRun(es) && i <= |es| && IsRun(es[..i]) && Errored(After(es[..i]), id, tag)
    ensures Errored(After(es), id, tag)
    decreases |es|
  {
    if i == |es| {
      assert es[..i] == es;
    } else {
      var n := |es| - 1;
      assert es[..n][..i] == es[..i];
      ErroredTagsStay(es[..n], i, id, tag);
      RunInv(es[..n]);
      ErroredKept(After(es[..n]), es[n], id, tag);
    }
  }
}
