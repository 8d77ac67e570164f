/** Streaming SHA-1 and MD5 over one shared engine (cesa.c): hash buffers chunks,
    hashexec moves the chaining value in and out of the engine, hashfinish pads. */
module Hash {
  import opened Bits
  import opened HashStandard
  import opened HashEngine

  // ---------- padding and finishing ----------

  function Scale(i: nat): nat {
    if i == 0 then 0x100_0000 else if i == 1 then 0x1_0000 else if i == 2 then 0x100 else 1
  }

  /** The last word with message bytes: up to three of them, then the padding's one
      bit.  The bytes do not overlap, so the source's bitwise or is a sum. */
  method TailWord(t: seq<byte>) returns (v: word)
    requires |t| < 4
    ensures Be(t + [0x80] + Zeros(3 - |t|), 0) == v
  {
    var w: nat := 0;
    var i := 0;
    while i < |t|
      invariant 0 <= i <= |t|
      invariant w == (if i > 0 then t[0] * Scale(0) else 0) + (if i > 1 then t[1] * Scale(1) else 0)
                   + (if i > 2 then t[2] * Scale(2) else 0)
    {
      w := w + (t[i] as nat) * Scale(i);
      i := i + 1;
    }
    v := w + 0x80 * Scale(i);
  }

  /** The bytes of one word of p. */
  function WordBytes(p: seq<byte>, at: nat): (b: seq<byte>)
    requires at + 4 <= |p|
    ensures |b| == 4 && Be(b, 0) == Be(p, at)
  {
    BeOfSlice(p, at);
    p[at..at + 4]
  }

  /** Writes the whole words of p that the block still has room for. */
  method WriteWords(r: HashReg, p: seq<byte>)
    requires r.Valid() && |p| % 4 == 0 && |r.block| + |p| < BLOCK
    modifies r
    ensures r.Valid() && r.mode == old(r.mode) && r.block == old(r.block) + p && r.iv == old(r.iv)
  {
    var q := 0;
    ghost var k, n := 0, |p| / 4;
    while q < |p|
      invariant 0 <= k <= n && q == 4 * k && |p| == 4 * n
      invariant r.Valid() && r.mode == old(r.mode) && r.block == old(r.block) + p[..q] && r.iv == old(r.iv)
    {
      r.WriteData(Be(p, q), WordBytes(p, q));
      Assoc(old(r.block), p[..q], p[q..q + 4]);
      assert p[..q + 4] == p[..q] + p[q..q + 4];
      q, k := q + 4, k + 1;
    }
  }

  /** Reverses the bytes of a word: the bytes c of the result read v the other way. */
  method Swap(v: word) returns (w: word, ghost c: seq<byte>)
    ensures |c| == 4 && Be(c, 0) == w && Le(c, 0) == v
    ensures forall p: seq<byte> :: |p| == 4 && Be(p, 0) == v ==> Le(p, 0) == w
  {
    var buf := new byte[4];
    StoreBe(buf, 0, v);
    w := Le(buf[..], 0);
    c := [buf[3], buf[2], buf[1], buf[0]];
    forall p: seq<byte> | |p| == 4 && Be(p, 0) == v
      ensures Le(p, 0) == w
    {
      BeInjective(p, buf[..], 0);
    }
  }

  /** The message bytes of the last, partial block, and the padding's one bit. */
  method WriteTail(r: HashReg, p: seq<byte>)
    requires r.Valid() && r.block == [] && |p| < BLOCK
    modifies r
    ensures r.Valid() && r.mode == old(r.mode)
    ensures |p| < 60 ==> r.block == p + [0x80] + Zeros(3 - |p| % 4) && r.iv == old(r.iv)
    ensures 60 <= |p| ==> r.block == [] && r.done
    ensures 60 <= |p| ==> r.State() == Compress(r.core, r.mode, old(r.State()), p + [0x80] + Zeros(3 - |p| % 4))
  {
    var e := |p| - |p| % 4;
    WriteWords(r, p[..e]);
    var v := TailWord(p[e..]);
    ghost var b := p[e..] + [0x80] + Zeros(3 - |p| % 4);
    assert [] + p[..e] + b == p + [0x80] + Zeros(3 - |p| % 4);
    r.WriteData(v, b);
  }

  /** Writes the bit count, most significant word first for SHA-1 and least
      significant byte first for MD5. */
  method WriteBitcount(r: HashReg, sha1: bool, nb: nat) returns (ghost c: seq<byte>)
    requires r.Valid() && |r.block| <= 56
    modifies r
    ensures CountBytes(sha1, nb, c)
    ensures r.Valid() && r.mode == old(r.mode) && r.block == [] && r.done
    ensures r.State() == Compress(r.core, r.mode, old(r.State()), old(r.block) + Zeros(56 - |old(r.block)|) + c)
  {
    if sha1 {
      var hi, lo: word := nb / WORD % WORD, nb % WORD;
      ghost var ch := SomeBytes(hi);
      ghost var cl := SomeBytes(lo);
      c := ch + cl;
      TwoWords(ch, cl);
      r.WriteBitcountLo(hi);
      r.WriteBitcountHi(lo, c);
    } else {
      var lo, hi;
      ghost var cl, ch;
      lo, cl := Swap(nb % WORD);
      hi, ch := Swap(nb / WORD % WORD);
      c := cl + ch;
      TwoWords(cl, ch);
      r.WriteBitcountLo(lo);
      r.WriteBitcountHi(hi, c);
    }
  }

  method WriteDigest(r: HashReg, sha1: bool, digest: array<byte>)
    requires r.Valid() && digest.Length == DigestLength(sha1)
    modifies digest
    ensures DigestBytes(sha1, r.iv[..NWords(sha1)], digest[..])
  {
    var i, n := 0, if sha1 then 5 else 4;
    while i < n
      invariant 0 <= i <= n
      invariant forall k :: 0 <= k < i ==>
        (if sha1 then Be(digest[..], 4 * k) else Le(digest[..], 4 * k)) == r.iv[k]
    {
      ghost var before := digest[..];
      if sha1 {
        StoreBe(digest, i * 4, r.iv[i]);
      } else {
        StoreLe(digest, i * 4, r.iv[i]);
      }
      WordsKept(before, digest[..], i);
      i := i + 1;
    }
  }

  lemma WordsKept(p: seq<byte>, q: seq<byte>, i: nat)
    requires |p| == |q| && 4 * i <= |p| && p[..4 * i] == q[..4 * i]
    ensures forall k :: 0 <= k < i ==> Be(q, 4 * k) == Be(p, 4 * k) && Le(q, 4 * k) == Le(p, 4 * k)
  {
    forall j | 0 <= j < 4 * i
      ensures p[j] == q[j]
    {
      assert p[j] == p[..4 * i][j] && q[j] == q[..4 * i][j];
    }
  }

  /** A last data block that has no room for the bit count. */
  method WriteFullBlock(r: HashReg, p: seq<byte>)
    requires r.Valid() && r.block == [] && 56 <= |p| < BLOCK
    modifies r
    ensures r.Valid() && r.mode == old(r.mode) && r.block == [] && r.done
    ensures r.State() == Compress(r.core, r.mode, old(r.State()), p + [0x80] + Zeros(63 - |p|))
  {
    ghost var z := 3 - |p| % 4;
    Remainder(|p|);
    if |p| < 60 {
      FourMore(p);
    }
    WriteTail(r, p);
    if |p| + 1 <= 60 {
      assert |r.block| == 60;
      r.WriteData(0, Zeros(4));
    }
  }

  method FinishBlocks(r: HashReg, mode: Mode, cont: bool, p: seq<byte>, nb: nat) returns (ghost pad: seq<byte>)
    requires r.Valid() && r.block == [] && |p| < BLOCK && Suits(mode)
    modifies r
    ensures r.Valid() && r.mode == mode && r.block == [] && r.done
    ensures Padding(mode.sha1, |p|, nb, pad)
    ensures var st := if cont then old(r.iv)[..NWords(mode.sha1)] else Initial(r.core, mode.sha1);
      r.State() == Chain(r.core, mode.sha1, st, p + pad)
  {
    r.WriteCmd(mode, cont);
    ghost var st := r.State();
    if |p| + 1 > 56 {
      WriteFullBlock(r, p);
      CompressIsStandard(r.core, mode, st, p + [0x80] + Zeros(63 - |p|));
      ghost var st' := r.State();
      r.WriteCmd(mode, true);
      ghost var c := WriteBitcount(r, mode.sha1, nb);
      assert [] + Zeros(56) + c == Zeros(56) + c;
      CompressIsStandard(r.core, mode, st', Zeros(56) + c);
      pad := TwoBlocks(r.core, mode.sha1, st, p, nb, c);
    } else {
      WriteTail(r, p);
      ghost var block := r.block;
      ghost var c := WriteBitcount(r, mode.sha1, nb);
      CompressIsStandard(r.core, mode, st, block + Zeros(56 - |block|) + c);
      pad := OneBlock(r.core, mode.sha1, st, p, 3 - |p| % 4, nb, c);
    }
  }

  /** Ends a message whose whole blocks have been digested and whose remaining bytes
      are p: pads them, and writes the digest. */
  method HashFinish(r: HashReg, mode: Mode, cont: bool, p: seq<byte>, nb: nat, digest: array<byte>)
      returns (ghost pad: seq<byte>)
    requires r.Valid() && r.block == [] && |p| < BLOCK && Suits(mode)
    requires digest.Length == DigestLength(mode.sha1)
    modifies r, digest
    ensures r.Valid() && r.block == []
    ensures Padding(mode.sha1, |p|, nb, pad)
    ensures var st := if cont then old(r.iv)[..NWords(mode.sha1)] else Initial(r.core, mode.sha1);
      DigestBytes(mode.sha1, Chain(r.core, mode.sha1, st, p + pad), digest[..])
  {
    pad := FinishBlocks(r, mode, cont, p, nb);
    WriteDigest(r, mode.sha1, digest);
  }

  lemma Remainder(n: nat)
    requires 56 <= n < BLOCK
    ensures n % 4 == if n < 60 then n - 56 else n - 60
  {
  }

  lemma FourMore(p: seq<byte>)
    requires 56 <= |p| < 60
    ensures p + [0x80] + Zeros(3 - |p| % 4) + Zeros(4) == p + [0x80] + Zeros(63 - |p|)
  {
    Remainder(|p|);
    ZerosAdd(3 - |p| % 4, 4);
    Assoc(p + [0x80], Zeros(3 - |p| % 4), Zeros(4));
  }

  lemma Regroup5<T>(a: seq<T>, b: seq<T>, y: seq<T>, z: seq<T>, c: seq<T>)
    ensures a + (b + (y + z) + c) == a + b + y + (z + c)
  {
  }

  /** The padding of a last block that has no room for the bit count. */
  lemma TwoBlocks(core: Core, sha1: bool, st: seq<word>, p: seq<byte>, nb: nat, c: seq<byte>)
      returns (pad: seq<byte>)
    requires 56 <= |p| < BLOCK && CountBytes(sha1, nb, c)
    ensures Padding(sha1, |p|, nb, pad)
    ensures Chain(core, sha1, st, p + pad)
         == HashBlock(core, sha1, HashBlock(core, sha1, st, p + [0x80] + Zeros(63 - |p|)), Zeros(56) + c)
  {
    var first, last := p + [0x80] + Zeros(63 - |p|), Zeros(56) + c;
    pad := [0x80] + Zeros(119 - |p|) + c;
    PaddedShape(sha1, 119 - |p|, nb, c);
    ZerosAdd(63 - |p|, 56);
    Regroup5(p, [0x80], Zeros(63 - |p|), Zeros(56), c);
    ChainConcat(core, sha1, st, first, last);
    ChainOne(core, sha1, st, first);
    ChainOne(core, sha1, HashBlock(core, sha1, st, first), last);
  }

  lemma PaddedShape(sha1: bool, z: nat, nb: nat, c: seq<byte>)
    requires CountBytes(sha1, nb, c)
    ensures PaddedWith(sha1, z, nb, [0x80] + Zeros(z) + c)
  {
    var pad := [0x80] + Zeros(z) + c;
    assert pad[1..1 + z] == Zeros(z) && pad[1 + z..] == c;
  }

  lemma OneBlock(core: Core, sha1: bool, st: seq<word>, p: seq<byte>, k: nat, nb: nat, c: seq<byte>)
      returns (pad: seq<byte>)
    requires |p| + 1 + k <= 56 && CountBytes(sha1, nb, c)
    ensures Padding(sha1, |p|, nb, pad)
    ensures var block := p + [0x80] + Zeros(k);
      Chain(core, sha1, st, p + pad) == HashBlock(core, sha1, st, block + Zeros(56 - |block|) + c)
  {
    pad := [0x80] + Zeros(55 - |p|) + c;
    PaddedShape(sha1, 55 - |p|, nb, c);
    OneBlockBytes(p, k, c);
    ChainOne(core, sha1, st, p + pad);
  }

  lemma OneBlockBytes(p: seq<byte>, k: nat, c: seq<byte>)
    requires |p| + 1 + k <= 56
    ensures p + ([0x80] + Zeros(55 - |p|) + c)
         == p + [0x80] + Zeros(k) + Zeros(56 - |p + [0x80] + Zeros(k)|) + c
  {
    var z := 55 - |p| - k;
    ZerosAdd(k, z);
    Regroup5(p, [0x80], Zeros(k), Zeros(z), c);
    Assoc(p + [0x80] + Zeros(k), Zeros(z), c);
  }

  // ---------- running the engine over buffers ----------

  /** What fits an int: hashexec would take the length of a longer buffer for a negative
      one, and digest nothing of it. */
  type chunk = p: seq<byte> | |p| < TWO31 witness []

  datatype Buf = Buf(p: chunk, finish: bool)

  /** The bytes of the buffers that do not end the message. */
  function Data(bufs: seq<Buf>): seq<byte> {
    if bufs == [] then [] else (if bufs[0].finish then [] else bufs[0].p) + Data(bufs[1..])
  }

  /** What hash passes to hashexec: whole blocks, then perhaps a last part. */
  predicate WellFormed(bufs: seq<Buf>) {
    forall i :: 0 <= i < |bufs| ==> PartOk(bufs[i], i == |bufs| - 1)
  }

  predicate PartOk(b: Buf, last: bool) {
    if b.finish then last && |b.p| < BLOCK else b.p != [] && |b.p| % BLOCK == 0
  }

  lemma {:induction false} DataConcat(a: seq<Buf>, b: seq<Buf>)
    ensures Data(a + b) == Data(a) + Data(b)
    decreases |a|
  {
    if a == [] {
      assert a + b == b;
    } else {
      assert (a + b)[1..] == a[1..] + b;
      DataConcat(a[1..], b);
    }
  }

  class DigestState {
    const sha1: bool
    const counter: nat
    var len: nat
    var seeded: bool
    var state: seq<word>
    const buf: array<byte>
    var blen: nat
    ghost var fed: seq<byte>

    /** The counter's width depends on the type of len, which libsec.h declares. */
    constructor (sha1: bool, counter: nat, ghost core: Core)
      requires counter == WORD || counter == WORD * WORD
      ensures fresh(buf) && fed == [] && this.sha1 == sha1 && this.counter == counter
      ensures Valid(core)
    {
      this.sha1 := sha1;
      this.counter := counter;
      len, blen, seeded := 0, 0, false;
      state := [0, 0, 0, 0, 0];
      buf := new byte[128](_ => 0);
      fed := [];
    }

    /** fed is everything handed over so far: the whole blocks are in the chaining
        value, and the rest is in the buffer. */
    ghost predicate Valid(core: Core)
      reads this, buf
    {
      && buf.Length == 128 && |state| == 5
      && (counter == WORD || counter == WORD * WORD)
      && len == |fed| % counter
      && blen == |fed| % BLOCK
      && buf[..blen] == fed[|fed| - blen..]
      && (seeded <==> BLOCK <= |fed|)
      && (seeded ==>
            state[..NWords(sha1)] == Chain(core, sha1, Initial(core, sha1), fed[..|fed| - blen]))
    }
  }

  method WriteBlock(r: HashReg, p: seq<byte>)
    requires r.Valid() && r.block == [] && |p| == BLOCK
    modifies r
    ensures r.Valid() && r.mode == old(r.mode) && r.block == [] && r.done
    ensures r.State() == Compress(r.core, r.mode, old(r.State()), p)
  {
    WriteWords(r, p[..60]);
    ghost var st := r.State();
    assert [] + p[..60] + p[60..64] == p;
    r.WriteData(Be(p, 60), WordBytes(p, 60));
    assert r.State() == Compress(r.core, r.mode, st, p[..60] + p[60..64]);
  }

  /** Digests the whole blocks of one buffer, whose length is put into an int. */
  method ExecBlocks(r: HashReg, mode: Mode, cont: bool, p: chunk, ghost st: seq<word>) returns (cont': bool)
    requires r.Valid() && r.block == [] && |p| % BLOCK == 0 && Suits(mode)
    requires st == if cont then r.iv[..NWords(mode.sha1)] else Initial(r.core, mode.sha1)
    modifies r
    ensures r.Valid() && r.block == [] && (cont' <==> cont || p != [])
    ensures cont' ==> r.iv[..NWords(mode.sha1)] == Chain(r.core, mode.sha1, st, p)
  {
    cont' := cont;
    var q, n := p, Long(|p|);
    while n >= 64
      invariant r.Valid() && r.block == [] && |q| % BLOCK == 0 && |q| <= |p| && n == |q|
      invariant cont' <==> cont || |q| < |p|
      invariant var now := if cont' then r.iv[..NWords(mode.sha1)] else Initial(r.core, mode.sha1);
        Chain(r.core, mode.sha1, now, q) == Chain(r.core, mode.sha1, st, p)
    {
      r.WriteCmd(mode, cont');
      cont' := true;
      CompressIsStandard(r.core, mode, r.State(), q[..BLOCK]);
      WriteBlock(r, q[..BLOCK]);
      assert r.done;
      q, n := q[64..], n - 64;
    }
  }

  /** Loads the chaining value, unless the engine is to start from its own. */
  method LoadState(r: HashReg, s: DigestState, sha1: bool)
    requires r.Valid() && |s.state| == 5
    modifies r
    ensures r.Valid() && r.block == old(r.block) && r.iv[..NWords(sha1)] == s.state[..NWords(sha1)]
  {
    var i := 0;
    while i < NWords(sha1)
      invariant 0 <= i <= NWords(sha1)
      invariant r.Valid() && r.block == old(r.block) && r.iv[..i] == s.state[..i]
    {
      r.WriteIv(i, s.state[i]);
      i := i + 1;
    }
  }

  method SaveState(r: HashReg, s: DigestState, sha1: bool)
    requires r.Valid() && |s.state| == 5
    modifies s`state
    ensures |s.state| == 5 && s.state[..NWords(sha1)] == r.iv[..NWords(sha1)]
  {
    var i := 0;
    while i < NWords(sha1)
      invariant 0 <= i <= NWords(sha1)
      invariant |s.state| == 5 && s.state[..i] == r.iv[..i]
    {
      s.state := s.state[i := r.iv[i]];
      i := i + 1;
    }
  }

  /** m has the digest out when its bit count is given as nb. */
  ghost predicate IsDigest(core: Core, sha1: bool, m: seq<byte>, nb: nat, out: seq<byte>) {
    exists pad ::
      Padding(sha1, |m|, nb, pad) && DigestBytes(sha1, Chain(core, sha1, Initial(core, sha1), m + pad), out)
  }

  ghost function Start(core: Core, sha1: bool, seeded: bool, state: seq<word>): seq<word>
    requires |state| == 5
  {
    if seeded then state[..NWords(sha1)] else Initial(core, sha1)
  }

  /** Digests the buffers before the one, if any, that ends the message. */
  method ExecWhole(r: HashReg, bufs: seq<Buf>, mode: Mode, cont: bool, ghost st: seq<word>)
      returns (i: nat, cont': bool)
    requires r.Valid() && r.block == [] && WellFormed(bufs) && bufs != [] && Suits(mode)
    requires st == if cont then r.iv[..NWords(mode.sha1)] else Initial(r.core, mode.sha1)
    modifies r
    ensures r.Valid() && r.block == []
    ensures i == if bufs[|bufs| - 1].finish then |bufs| - 1 else |bufs|
    ensures |Data(bufs)| % BLOCK == 0 && (i > 0 ==> cont')
    ensures Chain(r.core, mode.sha1, st, Data(bufs))
         == if cont' then r.iv[..NWords(mode.sha1)] else Initial(r.core, mode.sha1)
  {
    i, cont' := 0, cont;
    ghost var now := st;
    while i < |bufs| && !bufs[i].finish
      invariant 0 <= i <= |bufs|
      invariant r.Valid() && r.block == []
      invariant now == if cont' then r.iv[..NWords(mode.sha1)] else Initial(r.core, mode.sha1)
      invariant now == Chain(r.core, mode.sha1, st, Data(bufs[..i]))
      invariant |Data(bufs[..i])| % BLOCK == 0 && (i > 0 ==> cont')
      invariant forall k :: 0 <= k < i ==> !bufs[k].finish
    {
      assert PartOk(bufs[i], i == |bufs| - 1);
      BlocksAdd(|Data(bufs[..i])|, |bufs[i].p|);
      cont' := ExecBlocks(r, mode, cont', bufs[i].p, now);
      now := Chain(r.core, mode.sha1, now, bufs[i].p);
      ChainConcat(r.core, mode.sha1, st, Data(bufs[..i]), bufs[i].p);
      DataNext(bufs, i);
      i := i + 1;
    }
    if i < |bufs| {
      DataNext(bufs, i);
      assert bufs[..i + 1] == bufs;
      assert Data(bufs[..i]) + [] == Data(bufs[..i]);
    } else {
      assert bufs[..i] == bufs;
    }
  }

  lemma BlocksAdd(m: nat, n: nat)
    requires m % BLOCK == 0 && n % BLOCK == 0
    ensures (m + n) % BLOCK == 0
  {
    assert m + n == BLOCK * (m / BLOCK + n / BLOCK);
  }

  lemma DataNext(bufs: seq<Buf>, i: nat)
    requires i < |bufs|
    ensures Data(bufs[..i + 1]) == Data(bufs[..i]) + if bufs[i].finish then [] else bufs[i].p
  {
    DataConcat(bufs[..i], [bufs[i]]);
    assert bufs[..i + 1] == bufs[..i] + [bufs[i]];
  }

  /** Digests the buffers from the saved chaining value, or from the engine's own for
      a first call; saves the chaining value, or ends the message. */
  method HashExec(r: HashReg, bufs: seq<Buf>, s: DigestState, digest: array?<byte>)
      returns (ghost pad: seq<byte>)
    requires r.Valid() && r.block == [] && |s.state| == 5 && 0 < s.counter
    requires WellFormed(bufs) && bufs != []
    requires digest != null <==> bufs[|bufs| - 1].finish
    requires digest != null ==> digest.Length == DigestLength(s.sha1) && digest != s.buf
    modifies r, s`seeded, s`state, if digest == null then {} else {digest}
    ensures r.Valid() && r.block == [] && s.seeded && |s.state| == 5
    ensures var st := Start(r.core, s.sha1, old(s.seeded), old(s.state));
      digest == null ==> s.state[..NWords(s.sha1)] == Chain(r.core, s.sha1, st, Data(bufs))
    ensures var st, last := Start(r.core, s.sha1, old(s.seeded), old(s.state)), bufs[|bufs| - 1].p;
      digest != null ==>
        && Padding(s.sha1, |last|, s.len * 8 % s.counter, pad)
        && DigestBytes(s.sha1, Chain(r.core, s.sha1, st, Data(bufs) + last + pad), digest[..])
  {
    ghost var st := Start(r.core, s.sha1, s.seeded, s.state);
    var mode := if s.sha1 then Mode(true, false) else Mode(false, true);
    var cont := s.seeded;
    if s.seeded {
      LoadState(r, s, s.sha1);
    }
    s.seeded := true;
    pad := [];
    var i;
    i, cont := ExecWhole(r, bufs, mode, cont, st);
    if i < |bufs| && bufs[i].finish {
      pad := HashFinish(r, mode, cont, bufs[i].p, s.len * 8 % s.counter, digest);
      ChainConcat(r.core, s.sha1, st, Data(bufs), bufs[i].p + pad);
      assert Data(bufs) + bufs[i].p + pad == Data(bufs) + (bufs[i].p + pad);
    } else {
      SaveState(r, s, s.sha1);
    }
  }

  // ---------- handing over bytes ----------

  /** How many bytes of a chunk of n go into a buffer that holds b. */
  function TopUp(b: nat, n: nat): nat
    requires b < BLOCK
  {
    if b == 0 then 0 else if n < BLOCK - b then n else BLOCK - b
  }

  /** The bytes a call really hands over.  After digesting whole blocks straight from
      the chunk, the driver does not advance its pointer past them, and takes the
      rest from the start of those blocks. */
  function Effective(b: nat, p: seq<byte>): (e: seq<byte>)
    requires b < BLOCK
    ensures |e| == |p|
  {
    var rest := p[TopUp(b, |p|)..];
    p[..TopUp(b, |p|)] + rest[..|rest| - |rest| % BLOCK] + rest[..|rest| % BLOCK]
  }

  /** The guard under which the pointer does not matter: what is left after topping up
      the buffer is less than a block, or whole blocks. */
  predicate Guarded(b: nat, n: nat)
    requires b < BLOCK
  {
    n - TopUp(b, n) < BLOCK || (n - TopUp(b, n)) % BLOCK == 0
  }

  /** Exactly the guarded lengths hand over every chunk as it is. */
  lemma GuardExact(b: nat, n: nat)
    requires b < BLOCK
    ensures (forall p: seq<byte> :: |p| == n ==> Effective(b, p) == p) <==> Guarded(b, n)
  {
    if Guarded(b, n) {
      forall p: seq<byte> | |p| == n
        ensures Effective(b, p) == p
      {
        GuardedIsWhole(b, p);
      }
    } else {
      var t := TopUp(b, n);
      var p := Zeros(n - 1) + [1];
      var rest := p[t..];
      var k := |rest| % BLOCK;
      assert rest[..k][k - 1] == 0;
      assert Effective(b, p)[n - 1] == 0;
      assert p[n - 1] == 1;
      assert Effective(b, p) != p;
    }
  }

  /** The shortest such chunk: the byte after a whole block is lost, and the block's
      first byte is digested in its place. */
  lemma UnguardedExample()
    ensures !Guarded(0, 65) && Effective(0, Zeros(64) + [1]) == Zeros(65) != Zeros(64) + [1]
  {
    var p := Zeros(64) + [1];
    assert p[..1] == Zeros(1) && p[..64] == Zeros(64);
    ZerosAdd(64, 1);
    assert p[64] == 1 && Zeros(65)[64] == 0;
  }

  /** Behind one byte that was held: 63 bytes fill its block, a whole block follows, and its
      first byte comes again in place of the chunk's last one. */
  lemma UnguardedAfterTopUp()
    ensures !Guarded(1, 128)
    ensures Effective(1, Zeros(63) + [1] + Zeros(64)) == Zeros(63) + [1] + Zeros(63) + [1]
  {
    var p := Zeros(63) + [1] + Zeros(64);
    var rest := p[63..];
    assert rest == [1] + Zeros(64) && rest[..64] == [1] + Zeros(63) && rest[..1] == [1];
    assert p[..63] == Zeros(63);
  }

  lemma GuardedIsWhole(b: nat, p: seq<byte>)
    requires b < BLOCK && Guarded(b, |p|)
    ensures Effective(b, p) == p
  {
  }

  /** The whole blocks that a call completes, when the buffer holds held. */
  function Whole(held: seq<byte>, p: seq<byte>): seq<byte>
    requires |held| < BLOCK
  {
    var t := TopUp(|held|, |p|);
    var rest := p[t..];
    (if |held| + t == BLOCK then held + p[..t] else []) + rest[..|rest| - |rest| % BLOCK]
  }

  /** What a call leaves to be digested later. */
  function Left(held: seq<byte>, p: seq<byte>): seq<byte>
    requires |held| < BLOCK
  {
    var t := TopUp(|held|, |p|);
    var rest := p[t..];
    if |held| + t == BLOCK then rest[..|rest| % BLOCK] else held + p[..t] + rest[..|rest| % BLOCK]
  }

  lemma WholeAndLeft(held: seq<byte>, p: seq<byte>)
    requires |held| < BLOCK
    ensures held + Effective(|held|, p) == Whole(held, p) + Left(held, p)
    ensures |Whole(held, p)| % BLOCK == 0 && |Left(held, p)| < BLOCK
    ensures TopUp(|held|, |p|) == |p| || |held| == 0 || |held| + TopUp(|held|, |p|) == BLOCK
  {
    var t := TopUp(|held|, |p|);
    var head, rest := p[..t], p[t..];
    var bulk, tail := rest[..|rest| - |rest| % BLOCK], rest[..|rest| % BLOCK];
    RemainderGone(|rest|);
    if |held| + t == BLOCK {
      assert Whole(held, p) == held + head + bulk && Left(held, p) == tail;
      Assoc(held, head + bulk, tail);
      Assoc(held, head, bulk);
    } else if held == [] {
      assert Whole(held, p) == bulk && Left(held, p) == tail && Effective(0, p) == bulk + tail;
    } else {
      assert rest == [] && Whole(held, p) == [] && Left(held, p) == held + p && Effective(|held|, p) == p;
    }
  }

  method CopyInto(buf: array<byte>, at: nat, b: seq<byte>)
    requires at + |b| <= buf.Length
    modifies buf
    ensures buf[..at] == old(buf[..at]) && buf[at..at + |b|] == b
  {
    forall k | at <= k < at + |b| {
      buf[k] := b[k - at];
    }
  }

  /** Fills up the buffer of a previous call; a full buffer becomes the first block to
      digest. */
  method TopUpBuffer(s: DigestState, p: chunk) returns (bufs: seq<Buf>, q: chunk)
    requires s.buf.Length == 128 && s.blen < BLOCK
    modifies s`blen, s.buf
    ensures var held, t := old(s.buf[..s.blen]), TopUp(old(s.blen), |p|);
      && q == p[t..]
      && (|held| + t == BLOCK ==> bufs == [Buf(held + p[..t], false)] && s.blen == 0)
      && (|held| + t < BLOCK ==> bufs == [] && s.blen == |held| + t && s.buf[..s.blen] == held + p[..t])
  {
    bufs, q := [], p;
    if s.blen > 0 {
      var n := 64 - s.blen;
      if n > |q| {
        n := |q|;
      }
      ghost var held := s.buf[..s.blen];
      var at := s.blen;
      CopyInto(s.buf, at, q[..n]);
      s.blen := s.blen + n;
      q := q[n..];
      assert s.buf[..s.blen] == s.buf[..at] + s.buf[at..s.blen];
      if s.blen == 64 {
        bufs := [Buf(s.buf[..64], false)];
        s.blen := 0;
      }
    }
  }

  /** Whole blocks may be followed by more whole blocks, or by a last part. */
  lemma Append(a: seq<Buf>, b: Buf)
    requires WellFormed(a) && (a != [] ==> !a[|a| - 1].finish) && PartOk(b, true)
    ensures WellFormed(a + [b])
    ensures Data(a + [b]) == Data(a) + if b.finish then [] else b.p
  {
    var c := a + [b];
    DataConcat(a, [b]);
    DataOne(b);
    forall i | 0 <= i < |c|
      ensures PartOk(c[i], i == |c| - 1)
    {
      if i < |a| {
        assert c[i] == a[i] && PartOk(a[i], i == |a| - 1);
      }
    }
  }

  lemma DataOne(b: Buf)
    ensures Data([b]) == if b.finish then [] else b.p
  {
    assert [b][1..] == [];
  }

  /** Adds the chunk's whole blocks and, on the last call, what is left over. */
  method PlanBuffers(s: DigestState, first: seq<Buf>, q: chunk, last: bool) returns (bufs: seq<Buf>)
    requires s.buf.Length == 128 && s.blen < BLOCK
    requires WellFormed(first) && (first != [] ==> !first[|first| - 1].finish)
    ensures WellFormed(bufs) && (last ==> bufs != [])
    ensures Data(bufs) == Data(first) + q[..|q| - |q| % BLOCK]
    ensures bufs != [] ==> (last <==> bufs[|bufs| - 1].finish)
    ensures last ==> bufs[|bufs| - 1].p == if |q| % BLOCK > 0 then q[..|q| % BLOCK] else s.buf[..s.blen]
  {
    bufs := first;
    var len := |q|;
    if len >= 64 {
      Append(bufs, Buf(q[..len - len % 64], false));
      bufs := bufs + [Buf(q[..len - len % 64], false)];
    }
    assert Data(bufs) == Data(first) + q[..|q| - |q| % BLOCK];
    len := len % 64;
    if last {
      var b := if len > 0 then Buf(q[..len], true) else Buf(s.buf[..s.blen], true);
      Append(bufs, b);
      bufs := bufs + [b];
    }
  }

  /** How the chaining value and the buffer divide up the bytes after a call. */
  lemma Divided(core: Core, sha1: bool, done: seq<byte>, whole: seq<byte>, left: seq<byte>)
    requires |done| % BLOCK == 0 && |whole| % BLOCK == 0 && |left| < BLOCK
    ensures var fed, init := done + whole + left, Initial(core, sha1);
      && |fed| % BLOCK == |left| && fed[|fed| - |left|..] == left
      && Chain(core, sha1, init, fed[..|fed| - |left|]) == Chain(core, sha1, Chain(core, sha1, init, done), whole)
      && (|fed| < BLOCK <==> done == [] && whole == [])
  {
    var fed := done + whole + left;
    assert fed[..|fed| - |left|] == done + whole;
    ChainConcat(core, sha1, Initial(core, sha1), done, whole);
  }

  /** The first half of hash: takes the chunk in and decides what to digest now.  The
      bytes held and handed over are some whole blocks and what is left of them. */
  method TakeIn(s: DigestState, p: chunk, last: bool)
      returns (bufs: seq<Buf>, q: chunk, ghost whole: seq<byte>, ghost left: seq<byte>)
    requires s.buf.Length == 128 && s.blen < BLOCK
    modifies s`blen, s.buf
    ensures s.blen < BLOCK
    ensures old(s.buf[..s.blen]) + Effective(old(s.blen), p) == whole + left
    ensures |whole| % BLOCK == 0 && |left| < BLOCK
    ensures WellFormed(bufs) && (last ==> bufs != []) && (bufs != [] ==> (last <==> bufs[|bufs| - 1].finish))
    ensures Data(bufs) == whole && (!last ==> (bufs != [] <==> whole != []))
    ensures last ==> bufs[|bufs| - 1].p == left
    ensures left == if |q| % BLOCK > 0 then q[..|q| % BLOCK] else s.buf[..s.blen]
  {
    ghost var held := s.buf[..s.blen];
    whole, left := Whole(held, p), Left(held, p);
    WholeAndLeft(held, p);
    bufs, q := TopUpBuffer(s, p);
    assert left == if |q| % BLOCK > 0 then q[..|q| % BLOCK] else s.buf[..s.blen];
    bufs := PlanBuffers(s, bufs, q, last);
    assert Data(bufs) == whole;
  }

  method KeepRest(s: DigestState, q: seq<byte>)
    requires s.buf.Length == 128 && s.blen < BLOCK
    modifies s`blen, s.buf
    ensures s.blen < BLOCK
    ensures s.buf[..s.blen] == if |q| % BLOCK > 0 then q[..|q| % BLOCK] else old(s.buf[..s.blen])
  {
    var len := |q| % 64;
    if len > 0 {
      forall i | 0 <= i < len {
        s.buf[i] := q[i];
      }
      s.blen := len;
      assert s.buf[..s.blen] == q[..len];
    }
  }

  /** The second half of hash: digests the buffers, if there are any. */
  method DigestNow(r: HashReg, s: DigestState, bufs: seq<Buf>, digest: array?<byte>,
                   ghost done: seq<byte>, ghost left: seq<byte>)
    requires r.Valid() && r.block == [] && |s.state| == 5 && 0 < s.counter
    requires WellFormed(bufs) && (bufs != [] ==> (digest != null <==> bufs[|bufs| - 1].finish))
    requires digest != null ==> bufs != [] && bufs[|bufs| - 1].p == left
    requires digest != null ==> digest.Length == DigestLength(s.sha1) && digest != s.buf
    requires |done| % BLOCK == 0 && |Data(bufs)| % BLOCK == 0 && |left| < BLOCK
    requires Start(r.core, s.sha1, s.seeded, s.state)
          == Chain(r.core, s.sha1, Initial(r.core, s.sha1), done)
    modifies r, s`seeded, s`state, if digest == null then {} else {digest}
    ensures r.Valid() && r.block == [] && |s.state| == 5
    ensures s.seeded <==> old(s.seeded) || bufs != []
    ensures digest == null ==>
      Start(r.core, s.sha1, s.seeded, s.state)
        == Chain(r.core, s.sha1, Initial(r.core, s.sha1), done + Data(bufs))
    ensures digest != null ==>
      IsDigest(r.core, s.sha1, done + Data(bufs) + left, s.len * 8 % s.counter, digest[..])
  {
    ChainConcat(r.core, s.sha1, Initial(r.core, s.sha1), done, Data(bufs));
    if bufs != [] {
      ghost var pad := HashExec(r, bufs, s, digest);
      if digest != null {
        Finished(r.core, s.sha1, done, Data(bufs), left, s.len * 8 % s.counter, pad, digest[..]);
      }
    }
  }

  method CountBytesFed(s: DigestState, n: nat)
    requires (s.counter == WORD || s.counter == WORD * WORD) && s.len == |s.fed| % s.counter
    modifies s`len
    ensures s.len == (|s.fed| + n) % s.counter
    ensures s.len * 8 % s.counter == 8 * (|s.fed| + n) % s.counter
  {
    CounterAdds(|s.fed|, n, s.counter);
    s.len := (s.len + n) % s.counter;
    CounterScales(|s.fed| + n, s.counter);
  }

  /** hash: digest is null except for the last call of a message. */
  method Hash(r: HashReg, s: DigestState, p: chunk, digest: array?<byte>)
    requires r.Valid() && r.block == [] && s.Valid(r.core)
    requires digest != null ==> digest.Length == DigestLength(s.sha1) && digest != s.buf
    modifies r, s, s.buf, if digest == null then {} else {digest}
    ensures r.Valid() && r.block == []
    ensures s.fed == old(s.fed) + Effective(|old(s.fed)| % BLOCK, p)
    ensures digest == null ==> s.Valid(r.core)
    ensures digest != null ==>
      IsDigest(r.core, s.sha1, s.fed, 8 * |s.fed| % s.counter, digest[..])
  {
    ghost var fed := s.fed;
    ghost var held, done, eff := s.buf[..s.blen], fed[..|fed| - s.blen], Effective(s.blen, p);
    StartIsChain(r.core, s);
    var bufs, q;
    ghost var whole, left;
    CountBytesFed(s, |p|);
    bufs, q, whole, left := TakeIn(s, p, digest != null);
    s.fed := fed + eff;
    Regroup(done, held, eff, whole, left);
    assert |s.fed| == |fed| + |p| && s.fed == done + Data(bufs) + left;
    assert s.len * 8 % s.counter == 8 * |s.fed| % s.counter;
    DigestNow(r, s, bufs, digest, done, left);
    if digest == null {
      KeepRest(s, q);
      ValidAgain(r.core, s, done, whole, left);
    }
  }

  lemma ValidAgain(core: Core, s: DigestState, done: seq<byte>, whole: seq<byte>, left: seq<byte>)
    requires s.buf.Length == 128 && |s.state| == 5 && (s.counter == WORD || s.counter == WORD * WORD)
    requires |done| % BLOCK == 0 && |whole| % BLOCK == 0 && s.blen < BLOCK && s.buf[..s.blen] == left
    requires s.fed == done + whole + left && s.len == |s.fed| % s.counter
    requires s.seeded <==> done != [] || whole != []
    requires Start(core, s.sha1, s.seeded, s.state)
          == Chain(core, s.sha1, Initial(core, s.sha1), done + whole)
    ensures s.Valid(core)
  {
    Divided(core, s.sha1, done, whole, left);
    ChainConcat(core, s.sha1, Initial(core, s.sha1), done, whole);
  }

  lemma Finished(core: Core, sha1: bool, done: seq<byte>, whole: seq<byte>, left: seq<byte>, nb: nat,
                 pad: seq<byte>, out: seq<byte>)
    requires |done| % BLOCK == 0 && |whole| % BLOCK == 0 && |left| < BLOCK
    requires Padding(sha1, |left|, nb, pad)
    requires DigestBytes(sha1,
      Chain(core, sha1, Chain(core, sha1, Initial(core, sha1), done), whole + left + pad), out)
    ensures IsDigest(core, sha1, done + whole + left, nb, out)
  {
    var m := done + whole + left;
    Assoc(done, whole, left);
    Assoc(done, whole + left, pad);
    ChainConcat(core, sha1, Initial(core, sha1), done, whole + left + pad);
    SameZeroCount(done, whole, left);
    PaddingTransfer(sha1, |left|, |m|, nb, pad);
  }

  lemma PaddingTransfer(sha1: bool, n: nat, n': nat, nb: nat, pad: seq<byte>)
    requires ZeroCount(n) == ZeroCount(n') && Padding(sha1, n, nb, pad)
    ensures Padding(sha1, n', nb, pad)
  {
  }

  lemma SameZeroCount(a: seq<byte>, b: seq<byte>, c: seq<byte>)
    requires |a| % BLOCK == 0 && |b| % BLOCK == 0
    ensures ZeroCount(|a + b + c|) == ZeroCount(|c|)
  {
    var i, j := |a| / BLOCK, |b| / BLOCK;
    assert 55 - |a + b + c| == 55 - |c| - BLOCK * (i + j);
  }

  /** What hashexec starts from is the chaining value of the whole blocks so far. */
  lemma StartIsChain(core: Core, s: DigestState)
    requires s.Valid(core)
    ensures var done := s.fed[..|s.fed| - s.blen];
      && |done| % BLOCK == 0 && (s.seeded <==> done != []) && s.fed == done + s.buf[..s.blen]
      && Start(core, s.sha1, s.seeded, s.state)
         == Chain(core, s.sha1, Initial(core, s.sha1), done)
  {
    var n, done := |s.fed|, s.fed[..|s.fed| - s.blen];
    RemainderGone(n);
    assert s.fed == done + s.fed[n - s.blen..];
    if n < BLOCK {
      assert done == [];
    }
  }

  lemma RemainderGone(n: nat)
    ensures (n - n % BLOCK) % BLOCK == 0 && (n < BLOCK ==> n % BLOCK == n)
  {
  }

  lemma Regroup(done: seq<byte>, held: seq<byte>, eff: seq<byte>, whole: seq<byte>, left: seq<byte>)
    requires held + eff == whole + left
    ensures done + held + eff == done + whole + left
  {
    Assoc(done, held, eff);
    Assoc(done, whole, left);
  }

  lemma CounterAdds(a: nat, b: nat, m: nat)
    requires m == WORD || m == WORD * WORD
    ensures (a % m + b) % m == (a + b) % m
  {
  }

  lemma CounterScales(a: nat, m: nat)
    requires m == WORD || m == WORD * WORD
    ensures a % m * 8 % m == 8 * a % m
  {
  }

  // ---------- whole runs ----------

  /** What calls without a digest hand over, one after the other. */
  function Fed(fed: seq<byte>, chunks: seq<seq<byte>>): seq<byte>
    decreases |chunks|
  {
    if chunks == [] then fed
    else Fed(fed + Effective(|fed| % BLOCK, chunks[0]), chunks[1..])
  }

  /** Every call meets the guard, given how many bytes came before it. */
  predicate AllGuarded(n: nat, chunks: seq<seq<byte>>)
    decreases |chunks|
  {
    chunks == [] || (Guarded(n % BLOCK, |chunks[0]|) && AllGuarded(n + |chunks[0]|, chunks[1..]))
  }

  /** Guarded calls hand over the message itself, however it is cut up. */
  lemma {:induction false} GuardedRun(fed: seq<byte>, chunks: seq<seq<byte>>)
    requires AllGuarded(|fed|, chunks)
    ensures Fed(fed, chunks) == fed + Flatten(chunks)
    decreases |chunks|
  {
    if chunks != [] {
      GuardedIsWhole(|fed| % BLOCK, chunks[0]);
      GuardedRun(fed + chunks[0], chunks[1..]);
    }
  }

  /** A call on one of several digest states; the last one of a message asks for the
      digest. */
  datatype Call = Call(id: nat, p: chunk, last: bool)

  /** The chunks of the calls on one state. */
  function ChunksOf(calls: seq<Call>, id: nat): seq<seq<byte>> {
    if calls == [] then []
    else (if calls[0].id == id then [calls[0].p] else []) + ChunksOf(calls[1..], id)
  }

  /** The states whose message has not ended after a call. */
  function OpenAfter(open: set<nat>, c: Call): set<nat> {
    if c.last then open - {c.id} else open
  }

  function OpenAtEnd(open: set<nat>, calls: seq<Call>): set<nat>
    decreases |calls|
  {
    if calls == [] then open else OpenAtEnd(OpenAfter(open, calls[0]), calls[1..])
  }

  /** No message is continued after its end. */
  predicate InOrder(open: set<nat>, calls: seq<Call>)
    decreases |calls|
  {
    calls == [] || (calls[0].id in open && InOrder(OpenAfter(open, calls[0]), calls[1..]))
  }

  /** What has been fed to each state after the calls. */
  function RunCalls(feds: seq<seq<byte>>, calls: seq<Call>): (after: seq<seq<byte>>)
    requires forall k :: 0 <= k < |calls| ==> calls[k].id < |feds|
    ensures |after| == |feds|
    decreases |calls|
  {
    if calls == [] then feds else
    var id, p := calls[0].id, calls[0].p;
    RunCalls(feds[id := feds[id] + Effective(|feds[id]| % BLOCK, p)], calls[1..])
  }

  /** The calls on one state do not depend on the calls on the others. */
  lemma {:induction false} RunsAreSeparate(feds: seq<seq<byte>>, calls: seq<Call>, i: nat)
    requires i < |feds| && forall k :: 0 <= k < |calls| ==> calls[k].id < |feds|
    ensures RunCalls(feds, calls)[i] == Fed(feds[i], ChunksOf(calls, i))
    decreases |calls|
  {
    if calls != [] {
      var id, p := calls[0].id, calls[0].p;
      RunsAreSeparate(feds[id := feds[id] + Effective(|feds[id]| % BLOCK, p)], calls[1..], i);
      if id == i {
        assert ([p] + ChunksOf(calls[1..], i))[1..] == ChunksOf(calls[1..], i);
      } else {
        assert [] + ChunksOf(calls[1..], i) == ChunksOf(calls[1..], i);
      }
    }
  }

  ghost function Bufs(states: seq<DigestState>): set<array<byte>> {
    set i | 0 <= i < |states| :: states[i].buf
  }

  /** Two different states, or the buffer of one and a place for a digest, share nothing. */
  ghost predicate Apart(states: seq<DigestState>, outs: seq<array<byte>>, i: nat, j: nat)
    requires i < |states| && j < |states| == |outs|
  {
    && states[i].buf != outs[j] && states[j].buf != outs[i]
    && (i != j ==> states[i] != states[j] && states[i].buf != states[j].buf && outs[i] != outs[j])
  }

  /** Every state has its own buffer, and its own place for the digest. */
  ghost predicate Separate(states: seq<DigestState>, outs: seq<array<byte>>) {
    && |outs| == |states|
    && (forall i, j :: 0 <= i < |states| && 0 <= j < |states| ==> Apart(states, outs, i, j))
    && (forall i :: 0 <= i < |states| ==> outs[i].Length == DigestLength(states[i].sha1))
  }

  /** Of the states whose message has begun, an open one is valid, and an ended one has
      left the digest of what it was fed. */
  ghost predicate Going(core: Core, states: seq<DigestState>, outs: seq<array<byte>>, begun: set<nat>, open: set<nat>)
    reads states, Bufs(states), outs
  {
    && Separate(states, outs) && open <= begun
    && (forall i :: i in begun ==> i < |states| && StateOk(core, states[i], outs[i], i in open))
  }

  ghost predicate StateOk(core: Core, s: DigestState, out: array<byte>, open: bool)
    reads s, s.buf, out
  {
    if open then s.Valid(core) else HasDigest(core, s, out)
  }

  ghost predicate HasDigest(core: Core, s: DigestState, out: array<byte>)
    reads s, out
  {
    s.counter > 0 && IsDigest(core, s.sha1, s.fed, 8 * |s.fed| % s.counter, out[..])
  }

  ghost function Feds(states: seq<DigestState>): (f: seq<seq<byte>>)
    reads states
    ensures |f| == |states| && forall i :: 0 <= i < |states| ==> f[i] == states[i].fed
  {
    seq(|states|, i requires 0 <= i < |states| reads states => states[i].fed)
  }

  /** One call on one of the states. */
  method HashOne(r: HashReg, states: seq<DigestState>, outs: seq<array<byte>>, c: Call,
                 ghost begun: set<nat>, ghost open: set<nat>)
    requires r.Valid() && r.block == [] && Going(r.core, states, outs, begun, open) && c.id in open
    modifies r, states, Bufs(states), outs
    ensures r.Valid() && r.block == []
    ensures Going(r.core, states, outs, begun, OpenAfter(open, c))
    ensures var feds := old(Feds(states));
      Feds(states) == feds[c.id := feds[c.id] + Effective(|feds[c.id]| % BLOCK, c.p)]
  {
    forall i | 0 <= i < |states|
      ensures states[i].buf != outs[c.id] && outs[i] != states[c.id].buf
      ensures i != c.id ==> states[i] != states[c.id] && states[i].buf != states[c.id].buf && outs[i] != outs[c.id]
    {
      assert Apart(states, outs, i, c.id);
    }
    ghost var s := states[c.id];
    Hash(r, states[c.id], c.p, if c.last then outs[c.id] else null);
    assert StateOk(r.core, s, outs[c.id], !c.last);
    forall i | i in begun && i != c.id
      ensures StateOk(r.core, states[i], outs[i], i in open)
    {
      assert Apart(states, outs, i, c.id);
    }
  }

  /** Calls on any number of states that share the engine, in any order, those that end
      a message among them. */
  method Interleave(r: HashReg, states: seq<DigestState>, outs: seq<array<byte>>, calls: seq<Call>,
                    ghost begun: set<nat>, ghost open: set<nat>)
    requires r.Valid() && r.block == [] && Going(r.core, states, outs, begun, open)
    requires InOrder(open, calls) && forall k :: 0 <= k < |calls| ==> calls[k].id < |states|
    modifies r, states, Bufs(states), outs
    ensures r.Valid() && r.block == [] && Going(r.core, states, outs, begun, OpenAtEnd(open, calls))
    ensures Feds(states) == RunCalls(old(Feds(states)), calls)
    decreases |calls|
  {
    if calls != [] {
      HashOne(r, states, outs, calls[0], begun, open);
      Interleave(r, states, outs, calls[1..], begun, OpenAfter(open, calls[0]));
    }
  }

  /** The digest that the standard gives a message: its bit count is its length in
      bits, which has to fit 64 bits. */
  ghost predicate IsStandardDigest(core: Core, sha1: bool, m: seq<byte>, out: seq<byte>) {
    && |out| == (if sha1 then 20 else 16)
    && 8 * |m| < WORD * WORD && IsDigest(core, sha1, m, 8 * |m|, out)
  }

  /** The calls on a state meet the guard, and their message's bit count fits. */
  predicate Proper(s: DigestState, chunks: seq<seq<byte>>) {
    AllGuarded(0, chunks) && 8 * |Flatten(chunks)| < s.counter <= WORD * WORD
  }

  lemma DigestSize(core: Core, sha1: bool, m: seq<byte>, nb: nat, out: seq<byte>)
    requires IsDigest(core, sha1, m, nb, out)
    ensures |out| == if sha1 then 20 else 16
  {
    var pad :| Padding(sha1, |m|, nb, pad) && DigestBytes(sha1, Chain(core, sha1, Initial(core, sha1), m + pad), out);
    ChainSize(core, sha1, Initial(core, sha1), m + pad);
  }

  /** If the calls on a state meet the guard, it has been fed its message, and if that has
      ended, it has left the standard digest. */
  ghost predicate Concluded(core: Core, s: DigestState, out: array<byte>, chunks: seq<seq<byte>>, ended: bool)
    reads s, out
  {
    Proper(s, chunks) ==>
      && s.fed == Flatten(chunks)
      && (ended ==> IsStandardDigest(core, s.sha1, Flatten(chunks), out[..]))
  }

  lemma Conclude(core: Core, s: DigestState, out: array<byte>, feds: seq<seq<byte>>, calls: seq<Call>, i: nat,
                 open: bool)
    requires i < |feds| && feds[i] == [] && forall k :: 0 <= k < |calls| ==> calls[k].id < |feds|
    requires StateOk(core, s, out, open) && s.fed == RunCalls(feds, calls)[i]
    ensures Concluded(core, s, out, ChunksOf(calls, i), !open)
  {
    var chunks := ChunksOf(calls, i);
    if Proper(s, chunks) {
      RunsAreSeparate(feds, calls, i);
      GuardedRun([], chunks);
      CountFits(|s.fed|, s.counter);
      if !open {
        DigestSize(core, s.sha1, s.fed, 8 * |s.fed| % s.counter, out[..]);
      }
    }
  }

  /** A run of calls, from fresh states: every message that ends in it, handed over in
      guarded chunks with any other calls in between, has its standard digest, if its bit
      count fits the counter; and every other one can go on. */
  method DigestsOfMessages(r: HashReg, states: seq<DigestState>, outs: seq<array<byte>>, calls: seq<Call>,
                           ghost begun: set<nat>)
    requires r.Valid() && r.block == [] && Going(r.core, states, outs, begun, begun) && InOrder(begun, calls)
    requires forall i :: i in begun ==> states[i].fed == []
    requires forall k :: 0 <= k < |calls| ==> calls[k].id < |states|
    modifies r, states, Bufs(states), outs
    ensures r.Valid() && r.block == [] && Going(r.core, states, outs, begun, OpenAtEnd(begun, calls))
    ensures forall i :: i in begun ==>
      Concluded(r.core, states[i], outs[i], ChunksOf(calls, i), i !in OpenAtEnd(begun, calls))
  {
    ghost var feds := Feds(states);
    Interleave(r, states, outs, calls, begun, begun);
    forall i | i in begun
      ensures Concluded(r.core, states[i], outs[i], ChunksOf(calls, i), i !in OpenAtEnd(begun, calls))
    {
      assert Feds(states)[i] == states[i].fed;
      Conclude(r.core, states[i], outs[i], feds, calls, i, i in OpenAtEnd(begun, calls));
    }
  }

  /** Which messages have ended: those whose last call is in the run. */
  lemma {:induction false} EndedExactlyWhen(begun: set<nat>, calls: seq<Call>, i: nat)
    requires i in begun && InOrder(begun, calls)
    ensures i !in OpenAtEnd(begun, calls) <==> exists k :: 0 <= k < |calls| && calls[k].id == i && calls[k].last
    decreases |calls|
  {
    if calls != [] {
      var c, rest, open := calls[0], calls[1..], OpenAfter(begun, calls[0]);
      if i in open {
        EndedExactlyWhen(open, rest, i);
        if k :| 0 <= k < |calls| && calls[k].id == i && calls[k].last {
          assert rest[k - 1] == calls[k];
        }
        if k :| 0 <= k < |rest| && rest[k].id == i && rest[k].last {
          assert calls[k + 1] == rest[k];
        }
      } else {
        assert calls[0].id == i && calls[0].last;
        StaysEnded(open, rest, i);
      }
    }
  }

  lemma {:induction false} StaysEnded(open: set<nat>, calls: seq<Call>, i: nat)
    requires i !in open
    ensures i !in OpenAtEnd(open, calls)
    decreases |calls|
  {
    if calls != [] {
      StaysEnded(OpenAfter(open, calls[0]), calls[1..], i);
    }
  }

  /** The bit count put into the padding is the message's exactly when it fits. */
  lemma CountFits(n: nat, counter: nat)
    requires counter > 0
    ensures 8 * n % counter == 8 * n <==> 8 * n < counter
  {
  }
}
