/** SHA-1 (FIPS 180-4) and MD5 (RFC 1321) around their compression functions, which are
    parameters: how bytes become words, blocks are chained, messages padded and digests
    written. */
module HashStandard {
  import opened Bits

  const BLOCK := 64

  /** The i-th word of the initial chaining value; and of the one after a block of sixteen
      words. */
  datatype Algorithm = Algorithm(initial: nat -> word, compress: (seq<word>, seq<word>, nat) -> word)

  datatype Core = Core(sha1: Algorithm, md5: Algorithm)

  function AlgorithmOf(core: Core, sha1: bool): Algorithm {
    if sha1 then core.sha1 else core.md5
  }

  /** The words of a chaining value. */
  function NWords(sha1: bool): nat {
    if sha1 then 5 else 4
  }

  /** The words of a block: most significant byte first for SHA-1 (section 3.1 of FIPS
      180-4), least significant byte first for MD5 (section 2 of RFC 1321). */
  function BlockWords(sha1: bool, block: seq<byte>): (ws: seq<word>)
    requires |block| == BLOCK
    ensures |ws| == 16
  {
    seq(16, i requires 0 <= i < 16 => if sha1 then Be(block, 4 * i) else Le(block, 4 * i))
  }

  function Initial(core: Core, sha1: bool): seq<word> {
    seq<word>(NWords(sha1), i requires 0 <= i => AlgorithmOf(core, sha1).initial(i))
  }

  function HashBlock(core: Core, sha1: bool, st: seq<word>, block: seq<byte>): seq<word>
    requires |block| == BLOCK
  {
    Next(core, sha1, st, BlockWords(sha1, block))
  }

  /** The chaining value after sixteen words. */
  function Next(core: Core, sha1: bool, st: seq<word>, ws: seq<word>): seq<word> {
    seq<word>(NWords(sha1), i requires 0 <= i => AlgorithmOf(core, sha1).compress(st, ws, i))
  }

  /** The chaining value after the whole blocks of m. */
  function Chain(core: Core, sha1: bool, st: seq<word>, m: seq<byte>): seq<word>
    decreases |m|
  {
    if |m| < BLOCK then st
    else Chain(core, sha1, HashBlock(core, sha1, st, m[..BLOCK]), m[BLOCK..])
  }

  /** Whole blocks can be chained piece by piece. */
  lemma {:induction false} ChainConcat(core: Core, sha1: bool, st: seq<word>, a: seq<byte>, b: seq<byte>)
    requires |a| % BLOCK == 0
    ensures Chain(core, sha1, st, a + b) == Chain(core, sha1, Chain(core, sha1, st, a), b)
    decreases |a|
  {
    if a == [] {
      assert a + b == b;
    } else {
      assert (a + b)[..BLOCK] == a[..BLOCK] && (a + b)[BLOCK..] == a[BLOCK..] + b;
      ChainConcat(core, sha1, HashBlock(core, sha1, st, a[..BLOCK]), a[BLOCK..], b);
    }
  }

  lemma {:induction false} ChainSize(core: Core, sha1: bool, st: seq<word>, m: seq<byte>)
    requires |st| == NWords(sha1)
    ensures |Chain(core, sha1, st, m)| == NWords(sha1)
    decreases |m|
  {
    if |m| >= BLOCK {
      ChainSize(core, sha1, HashBlock(core, sha1, st, m[..BLOCK]), m[BLOCK..]);
    }
  }

  lemma ChainOne(core: Core, sha1: bool, st: seq<word>, block: seq<byte>)
    requires |block| == BLOCK
    ensures Chain(core, sha1, st, block) == HashBlock(core, sha1, st, block)
  {
    assert block[..BLOCK] == block;
  }

  // ---------- padding ----------

  lemma ZerosAdd(a: nat, b: nat)
    ensures Zeros(a) + Zeros(b) == Zeros(a + b)
  {
  }

  /** A 64-bit count as its two words, in the byte order of the algorithm. */
  predicate CountBytes(sha1: bool, nb: nat, c: seq<byte>) {
    && |c| == 8
    && if sha1 then Be(c, 0) == nb / WORD % WORD && Be(c, 4) == nb % WORD
       else Le(c, 0) == nb % WORD && Le(c, 4) == nb / WORD % WORD
  }

  /** How many zero bytes bring a message of n bytes, and a one bit, to eight bytes
      short of whole blocks. */
  function ZeroCount(n: nat): nat {
    (55 - n) % 64
  }

  ghost predicate PaddedWith(sha1: bool, z: nat, nb: nat, pad: seq<byte>) {
    && |pad| == 1 + z + 8
    && pad[0] == 0x80
    && pad[1..1 + z] == Zeros(z)
    && CountBytes(sha1, nb, pad[1 + z..])
  }

  /** Section 5.1.1 of FIPS 180-4, and sections 3.1 and 3.2 of RFC 1321: what follows
      a message of n bytes whose bit count is nb. */
  ghost predicate Padding(sha1: bool, n: nat, nb: nat, pad: seq<byte>) {
    PaddedWith(sha1, ZeroCount(n), nb, pad)
  }

  /** In bytes. */
  function DigestLength(sha1: bool): nat {
    4 * NWords(sha1)
  }

  /** A digest is the chaining value, word by word in the algorithm's byte order. */
  predicate DigestBytes(sha1: bool, st: seq<word>, out: seq<byte>) {
    && |out| == 4 * |st|
    && forall i :: 0 <= i < |st| ==> (if sha1 then Be(out, 4 * i) else Le(out, 4 * i)) == st[i]
  }
}
