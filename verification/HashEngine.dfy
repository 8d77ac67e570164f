/** The digest engine's registers (cesa.c, io.h).  A block is kept as the bytes of the words
    written, most significant first. */
module HashEngine {
  import opened Bits
  import opened HashStandard

  /** What the command register selects: the algorithm, and whether the bytes of every
      word of a block are reversed first. */
  datatype Mode = Mode(sha1: bool, byteswap: bool)

  function Reversed(v: word): word {
    Word(v % 256, v / 256 % 256, v / 0x1_0000 % 256, v / 0x100_0000)
  }

  lemma ReversedBytes(p: seq<byte>, at: nat)
    requires at + 4 <= |p|
    ensures Reversed(Be(p, at)) == Le(p, at)
  {
    ShiftsOfWord(p[at], p[at + 1], p[at + 2], p[at + 3]);
  }

  /** The words that the engine compresses, of a block as written. */
  function WordsRead(mode: Mode, block: seq<byte>): (ws: seq<word>)
    requires |block| == BLOCK
    ensures |ws| == 16
  {
    seq(16, i requires 0 <= i < 16 => if mode.byteswap then Reversed(Be(block, 4 * i)) else Be(block, 4 * i))
  }

  function Compress(core: Core, mode: Mode, st: seq<word>, block: seq<byte>): (next: seq<word>)
    requires |block| == BLOCK
    ensures |next| == NWords(mode.sha1)
  {
    Next(core, mode.sha1, st, WordsRead(mode, block))
  }

  /** The bytes have to be reversed for MD5, and only then. */
  predicate Suits(mode: Mode) {
    mode.byteswap <==> !mode.sha1
  }

  /** In a suitable mode the engine does what the standard says. */
  lemma CompressIsStandard(core: Core, mode: Mode, st: seq<word>, block: seq<byte>)
    requires |block| == BLOCK && Suits(mode)
    ensures Compress(core, mode, st, block) == HashBlock(core, mode.sha1, st, block)
  {
    var read, words := WordsRead(mode, block), BlockWords(mode.sha1, block);
    forall i | 0 <= i < 16
      ensures read[i] == words[i]
    {
      ReversedBytes(block, 4 * i);
    }
    assert read == words;
  }

  // ---------- the registers ----------

  class HashReg {
    const core: Core
    var mode: Mode
    var iv: seq<word>
    var block: seq<byte>
    var bitcountlo: word
    var done: bool

    ghost predicate Valid()
      reads this
    {
      |iv| == 5 && |block| < BLOCK && |block| % 4 == 0
    }

    /** The chaining value, in the registers the mode uses. */
    function State(): (st: seq<word>)
      requires Valid()
      reads this
      ensures |st| == NWords(mode.sha1)
    {
      iv[..NWords(mode.sha1)]
    }

    constructor (core: Core)
      ensures Valid() && this.core == core
    {
      this.core := core;
      mode := Mode(true, false);
      iv := [0, 0, 0, 0, 0];
      block := [];
      bitcountlo := 0;
      done := true;
    }

    method WriteIv(i: nat, v: word)
      requires Valid() && i < 5
      modifies `iv
      ensures Valid() && iv == old(iv)[i := v]
    {
      iv := iv[i := v];
    }

    /** Writing the command register begins a block; without the continue bit it also
        resets the chaining value. */
    method WriteCmd(m: Mode, cont: bool)
      requires Valid() && block == []
      modifies this
      ensures Valid() && mode == m && block == [] && !done
      ensures State() == if cont then old(iv)[..NWords(m.sha1)] else Initial(core, m.sha1)
    {
      mode := m;
      done := false;
      if !cont {
        iv := Initial(core, m.sha1) + iv[NWords(m.sha1)..];
        assert iv[..NWords(m.sha1)] == Initial(core, m.sha1);
      }
    }

    /** A data write appends four bytes; the sixteenth starts the compression. */
    method WriteData(v: word, ghost b: seq<byte>)
      requires Valid() && |b| == 4 && Be(b, 0) == v
      modifies this
      ensures Valid() && mode == old(mode)
      ensures |old(block)| < 60 ==> block == old(block) + b && iv == old(iv) && done == old(done)
      ensures |old(block)| == 60 ==>
        block == [] && done && State() == Compress(core, mode, old(State()), old(block) + b)
    {
      var w := BytesOf(v);
      BeInjective(w, b, 0);
      assert w[0..4] == w && b[0..4] == b;
      block := block + w;
      if |block| == BLOCK {
        Run();
      }
    }

    method WriteBitcountLo(v: word)
      requires Valid()
      modifies `bitcountlo
      ensures bitcountlo == v
    {
      bitcountlo := v;
    }

    /** The second half of the bit count completes a block, after zero-filling it. */
    method WriteBitcountHi(v: word, ghost c: seq<byte>)
      requires Valid() && |block| <= 56
      requires |c| == 8 && Be(c, 0) == bitcountlo && Be(c, 4) == v
      modifies this
      ensures Valid() && mode == old(mode) && block == [] && done
      ensures State() == Compress(core, mode, old(State()), old(block) + Zeros(56 - |old(block)|) + c)
    {
      ghost var z, st := block + Zeros(56 - |block|), State();
      block := block + Zeros(56 - |block|);
      ghost var lo, hi := Halves(c);
      Assoc(z, lo, hi);
      WriteData(bitcountlo, lo);
      assert block == z + lo && State() == st;
      WriteData(v, hi);
    }

    lemma Halves(c: seq<byte>) returns (lo: seq<byte>, hi: seq<byte>)
      requires |c| == 8
      ensures |lo| == 4 && |hi| == 4 && c == lo + hi && Be(lo, 0) == Be(c, 0) && Be(hi, 0) == Be(c, 4)
    {
      lo, hi := c[..4], c[4..];
    }

    method Run()
      requires |iv| == 5 && |block| == BLOCK
      modifies `iv, `block, `done
      ensures Valid() && block == [] && done
      ensures State() == Compress(core, mode, old(iv)[..NWords(mode.sha1)], old(block))
    {
      var next := Compress(core, mode, iv[..NWords(mode.sha1)], block);
      iv := next + iv[NWords(mode.sha1)..];
      assert iv[..NWords(mode.sha1)] == next;
      block := [];
      done := true;
    }
  }
}
