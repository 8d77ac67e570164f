/** AES in cipher block chaining mode, in place, on the cryptographic engine
    (cesa.c).  The engine's block cipher is a parameter. */
module Aes {
  import opened Bits

  /** Four words, most significant first. */
  datatype Block = Block(w0: word, w1: word, w2: word, w3: word)

  type Cipher = (seq<word>, Block) -> Block

  function XorBlock(a: Block, b: Block): Block {
    XorWord(a.w0, b.w0);
    XorWord(a.w1, b.w1);
    XorWord(a.w2, b.w2);
    XorWord(a.w3, b.w3);
    Block(Xor(a.w0, b.w0), Xor(a.w1, b.w1), Xor(a.w2, b.w2), Xor(a.w3, b.w3))
  }

  lemma XorBlockCancel(a: Block, b: Block)
    ensures XorBlock(XorBlock(a, b), b) == a
  {
    XorCancel(a.w0, b.w0);
    XorCancel(a.w1, b.w1);
    XorCancel(a.w2, b.w2);
    XorCancel(a.w3, b.w3);
  }

  lemma XorBlockInjective(x: Block, a: Block, b: Block)
    ensures XorBlock(x, a) == XorBlock(x, b) <==> a == b
  {
    XorInjective(x.w0, a.w0, b.w0);
    XorInjective(x.w1, a.w1, b.w1);
    XorInjective(x.w2, a.w2, b.w2);
    XorInjective(x.w3, a.w3, b.w3);
  }

  // ---------- the mode, section 6.2 of NIST SP 800-38A ----------

  function CbcEncrypt(e: Cipher, key: seq<word>, iv: Block, m: seq<Block>): (c: seq<Block>)
    ensures |c| == |m|
    decreases |m|
  {
    if m == [] then [] else
    var c0 := e(key, XorBlock(m[0], iv));
    [c0] + CbcEncrypt(e, key, c0, m[1..])
  }

  function CbcDecrypt(d: Cipher, key: seq<word>, iv: Block, c: seq<Block>): (m: seq<Block>)
    ensures |m| == |c|
    decreases |c|
  {
    if c == [] then [] else
    [XorBlock(d(key, c[0]), iv)] + CbcDecrypt(d, key, c[0], c[1..])
  }

  /** The words of a block that enters the cipher: those of the plaintext, each with the one
      at the same place in the block before of the ciphertext. */
  lemma {:induction false} EncryptedWords(e: Cipher, key: seq<word>, iv: Block, m: seq<Block>, i: nat)
      returns (x: Block)
    requires i < |m|
    ensures var c := CbcEncrypt(e, key, iv, m); var prev := if i == 0 then iv else c[i - 1];
      && c[i] == e(key, x)
      && x.w0 == Xor(m[i].w0, prev.w0) && x.w1 == Xor(m[i].w1, prev.w1)
      && x.w2 == Xor(m[i].w2, prev.w2) && x.w3 == Xor(m[i].w3, prev.w3)
    decreases i
  {
    if i == 0 {
      x := XorBlock(m[0], iv);
    } else {
      x := EncryptedWords(e, key, e(key, XorBlock(m[0], iv)), m[1..], i - 1);
    }
  }

  lemma {:induction false} DecryptedWords(d: Cipher, key: seq<word>, iv: Block, c: seq<Block>, i: nat)
    requires i < |c|
    ensures var m, x := CbcDecrypt(d, key, iv, c), d(key, c[i]); var prev := if i == 0 then iv else c[i - 1];
      && m[i].w0 == Xor(x.w0, prev.w0) && m[i].w1 == Xor(x.w1, prev.w1)
      && m[i].w2 == Xor(x.w2, prev.w2) && m[i].w3 == Xor(x.w3, prev.w3)
    decreases i
  {
    if i > 0 {
      DecryptedWords(d, key, c[0], c[1..], i - 1);
    }
  }

  /** The chaining value after a ciphertext. */
  function Last(iv: Block, c: seq<Block>): Block {
    if c == [] then iv else c[|c| - 1]
  }

  ghost predicate Inverse(d: Cipher, e: Cipher) {
    forall key, x :: d(key, e(key, x)) == x
  }

  lemma {:induction false} DecryptInvertsEncrypt(e: Cipher, d: Cipher, key: seq<word>, iv: Block, m: seq<Block>)
    requires Inverse(d, e)
    ensures CbcDecrypt(d, key, iv, CbcEncrypt(e, key, iv, m)) == m
    decreases |m|
  {
    if m != [] {
      var c0 := e(key, XorBlock(m[0], iv));
      XorBlockCancel(m[0], iv);
      DecryptInvertsEncrypt(e, d, key, c0, m[1..]);
      assert CbcEncrypt(e, key, iv, m)[1..] == CbcEncrypt(e, key, c0, m[1..]);
      assert m == [m[0]] + m[1..];
    }
  }

  lemma {:induction false} EncryptConcat(e: Cipher, key: seq<word>, iv: Block, a: seq<Block>, b: seq<Block>)
    ensures var c := CbcEncrypt(e, key, iv, a);
      CbcEncrypt(e, key, iv, a + b) == c + CbcEncrypt(e, key, Last(iv, c), b)
    decreases |a|
  {
    if a == [] {
      assert a + b == b;
    } else {
      var c0 := e(key, XorBlock(a[0], iv));
      assert (a + b)[1..] == a[1..] + b;
      EncryptConcat(e, key, c0, a[1..], b);
    }
  }

  lemma {:induction false} DecryptConcat(d: Cipher, key: seq<word>, iv: Block, a: seq<Block>, b: seq<Block>)
    ensures CbcDecrypt(d, key, iv, a + b)
         == CbcDecrypt(d, key, iv, a) + CbcDecrypt(d, key, Last(iv, a), b)
    decreases |a|
  {
    if a == [] {
      assert a + b == b;
    } else {
      assert (a + b)[1..] == a[1..] + b;
      DecryptConcat(d, key, a[0], a[1..], b);
    }
  }

  // ---------- the engine ----------

  /** The block in data registers 3, 2, 1 and 0. */
  function BlockOf(data: seq<word>): Block
    requires |data| == 4
  {
    Block(data[3], data[2], data[1], data[0])
  }

  /** The key in the first n registers from the top one down. */
  function KeyOf(regs: seq<word>, n: nat): (key: seq<word>)
    requires n <= |regs|
    ensures |key| == n && forall i :: 0 <= i < n ==> key[i] == regs[|regs| - 1 - i]
  {
    if n == 0 then [] else KeyOf(regs, n - 1) + [regs[|regs| - n]]
  }

  /** One direction of the engine.  It transforms the block once data register 0, the
      last of the four the driver writes, has been written. */
  class AesReg {
    const cipher: Cipher
    var cmd: nat
    const key: array<word>
    const data: array<word>

    ghost predicate Valid()
      reads this
    {
      key.Length == 8 && data.Length == 4 && key != data && cmd in {AES_KEY_128, AES_KEY_192, AES_KEY_256}
    }

    ghost function Key(): seq<word>
      requires Valid()
      reads this, key
    {
      KeyOf(key[..], KeyWords(cmd))
    }

    constructor (cipher: Cipher)
      ensures Valid() && fresh(key) && fresh(data)
      ensures this.cipher == cipher
    {
      this.cipher := cipher;
      key := new word[8];
      data := new word[4];
      cmd := AES_KEY_128;
    }

    method WriteData(i: nat, v: word)
      requires Valid() && i < 4
      modifies data
      ensures i != 0 ==> data[..] == old(data[..])[i := v]
      ensures i == 0 ==> BlockOf(data[..]) == cipher(Key(), BlockOf(old(data[..])[0 := v]))
    {
      data[i] := v;
      if i == 0 {
        assert data[..] == old(data[..])[0 := v];
        var out := cipher(KeyOf(key[..], KeyWords(cmd)), BlockOf(data[..]));
        data[3], data[2], data[1], data[0] := out.w0, out.w1, out.w2, out.w3;
      }
    }
  }

  const AES_KEY_128 := 0
  const AES_KEY_192 := 1
  const AES_KEY_256 := 2

  function KeyWords(cmd: nat): nat {
    if cmd == AES_KEY_128 then 4 else if cmd == AES_KEY_192 then 6 else 8
  }

  // ---------- the driver ----------

  const BSIZE := 16

  class AESstate {
    const keybytes: nat
    const key: array<byte>
    const ivec: array<byte>

    constructor (k: seq<byte>, iv: seq<byte>)
      requires |iv| == BSIZE
      ensures Valid() && fresh(key) && fresh(ivec)
      ensures key[..] == k && ivec[..] == iv && keybytes == |k|
    {
      keybytes := |k|;
      key := new byte[|k|](i requires 0 <= i < |k| => k[i]);
      ivec := new byte[BSIZE](i requires 0 <= i < BSIZE => iv[i]);
    }

    ghost predicate Valid()
    {
      key.Length == keybytes && ivec.Length == BSIZE && key != ivec
    }
  }

  function BlockAt(p: seq<byte>, at: nat): Block
    requires at + BSIZE <= |p|
  {
    Block(Be(p, at), Be(p, at + 4), Be(p, at + 8), Be(p, at + 12))
  }

  /** The blocks of a whole number of blocks' bytes. */
  function Blocks(p: seq<byte>): (m: seq<Block>)
    requires |p| % BSIZE == 0
    ensures |m| == |p| / BSIZE
    ensures forall i :: 0 <= i < |m| ==> m[i] == BlockAt(p, BSIZE * i)
  {
    seq(|p| / BSIZE, i requires 0 <= i < |p| / BSIZE => BlockAt(p, BSIZE * i))
  }

  /** The k-th word of a block of a message is made of four bytes, most significant first. */
  lemma WordsOfMessage(p: seq<byte>, i: nat)
    requires |p| % BSIZE == 0 && i < |p| / BSIZE
    ensures var b, o := Blocks(p)[i], 16 * i;
      && b.w0 == p[o] as int * 0x100_0000 + p[o + 1] as int * 0x1_0000 + p[o + 2] as int * 256 + p[o + 3] as int
      && b.w1 == p[o + 4] as int * 0x100_0000 + p[o + 5] as int * 0x1_0000 + p[o + 6] as int * 256 + p[o + 7] as int
      && b.w2 == p[o + 8] as int * 0x100_0000 + p[o + 9] as int * 0x1_0000 + p[o + 10] as int * 256 + p[o + 11] as int
      && b.w3
         == p[o + 12] as int * 0x100_0000 + p[o + 13] as int * 0x1_0000 + p[o + 14] as int * 256 + p[o + 15] as int
  {
  }

  /** The words of a key, most significant byte first. */
  function KeyFrom(k: seq<byte>): (w: seq<word>)
    requires |k| % 4 == 0
    ensures |w| == |k| / 4 && forall i :: 0 <= i < |w| ==> w[i] == Be(k, 4 * i)
  {
    seq(|k| / 4, i requires 0 <= i < |k| / 4 => Be(k, 4 * i))
  }

  method StoreBlock(p: array<byte>, at: nat, b: Block)
    requires at + BSIZE <= p.Length
    modifies p
    ensures BlockAt(p[..], at) == b
    ensures p[..at] == old(p[..at]) && p[at + BSIZE..] == old(p[at + BSIZE..])
  {
    ghost var p0 := p[..];
    StoreBe(p, at, b.w0);
    ghost var p1 := p[..];
    StoreBe(p, at + 4, b.w1);
    ghost var p2 := p[..];
    StoreBe(p, at + 8, b.w2);
    ghost var p3 := p[..];
    StoreBe(p, at + 12, b.w3);
    ghost var p4 := p[..];
    assert p1[..at] == p2[..at + 4][..at] == p3[..at + 8][..at] == p4[..at + 12][..at];
    assert p1[at + 4..][12..] == p2[at + 8..][8..] == p3[at + 12..][4..] == p4[at + BSIZE..];
    assert p0[..at] == p4[..at] && p0[at + 4..][12..] == p0[at + BSIZE..] == p4[at + BSIZE..];
    assert p[..at] == p4[..at] && p[at + BSIZE..] == p4[at + BSIZE..];
    assert old(p[..at]) == p0[..at] && old(p[at + BSIZE..]) == p0[at + BSIZE..];
    BeKept(p1, p2, at, at + 4);
    BeKept(p2, p3, at, at + 8);
    BeKept(p3, p[..], at, at + 12);
    BeKept(p2, p3, at + 4, at + 8);
    BeKept(p3, p[..], at + 4, at + 12);
    BeKept(p3, p[..], at + 8, at + 12);
  }

  lemma BeKept(p: seq<byte>, q: seq<byte>, at: nat, len: nat)
    requires at + 4 <= len <= |p| == |q| && p[..len] == q[..len]
    ensures Be(q, at) == Be(p, at)
  {
    assert p[at..at + 4] == p[..len][at..at + 4];
    assert q[at..at + 4] == q[..len][at..at + 4];
    BeOfSlice(p, at);
    BeOfSlice(q, at);
  }

  /** Selects the key length and loads the key; false for a length AES does not have. */
  method LoadKey(r: AesReg, s: AESstate) returns (ok: bool)
    requires r.Valid() && s.Valid()
    modifies r`cmd, r.key
    ensures r.Valid()
    ensures ok <==> s.keybytes in {16, 24, 32}
    ensures ok ==> r.Key() == KeyFrom(s.key[..])
  {
    if s.keybytes == 16 {
      r.cmd := AES_KEY_128;
    } else if s.keybytes == 24 {
      r.cmd := AES_KEY_192;
    } else if s.keybytes == 32 {
      r.cmd := AES_KEY_256;
    } else {
      return false;
    }
    LoadKeyWords(r, s.key);
    ok := true;
  }

  method LoadKeyWords(r: AesReg, key: array<byte>)
    requires r.Valid() && key.Length == 4 * KeyWords(r.cmd)
    modifies r.key
    ensures r.Key() == KeyFrom(key[..])
  {
    var kp, k := 0, 7;
    ghost var i := 0;
    while kp < key.Length
      invariant kp == 4 * i && k == 7 - i && i <= KeyWords(r.cmd)
      invariant forall j :: 0 <= j < i ==> r.key[7 - j] == Be(key[..], 4 * j)
    {
      r.key[k] := Be(key[..], kp);
      k := k - 1;
      kp := kp + 4;
      i := i + 1;
    }
  }

  /** Writes one block to the engine, waits for it and reads the result. */
  method RunBlock(r: AesReg, b: Block) returns (out: Block)
    requires r.Valid()
    modifies r.data
    ensures out == r.cipher(r.Key(), b) && r.Key() == old(r.Key())
  {
    r.WriteData(3, b.w0);
    r.WriteData(2, b.w1);
    r.WriteData(1, b.w2);
    r.WriteData(0, b.w3);
    out := BlockOf(r.data[..]);
  }

  /** The buffers of one call are separate. */
  predicate Separate(r: AesReg, p: array<byte>, s: AESstate) {
    && p != s.ivec && p != s.key
    && (r.data as object) !in {p, s.ivec, s.key} && (r.key as object) !in {p, s.ivec, s.key}
  }

  /** The first i blocks of now are encrypted, with chaining value v. */
  ghost predicate Encrypted(e: Cipher, key: seq<word>, iv: Block, m: seq<Block>, now: seq<Block>, i: nat, v: Block) {
    && |now| == |m| && i <= |m|
    && now[i..] == m[i..]
    && v == Last(iv, now[..i])
    && now[..i] + CbcEncrypt(e, key, v, m[i..]) == CbcEncrypt(e, key, iv, m)
  }

  lemma EncryptedNext(e: Cipher, key: seq<word>, iv: Block, m: seq<Block>, now: seq<Block>, i: nat, v: Block)
    requires Encrypted(e, key, iv, m, now, i, v) && i < |m|
    ensures now[i] == m[i]
    ensures var c := e(key, XorBlock(now[i], v));
      Encrypted(e, key, iv, m, now[i := c], i + 1, c)
  {
    assert now[i] == now[i..][0] == m[i..][0];
    var c := e(key, XorBlock(now[i], v));
    var next := now[i := c];
    assert next[i + 1..] == now[i..][1..] == m[i + 1..];
    assert m[i..][1..] == m[i + 1..];
    assert next[..i + 1] == now[..i] + [c];
  }

  method EncryptBlock(r: AesReg, p: array<byte>, q: nat, v: Block, ghost i: nat) returns (v': Block)
    requires r.Valid() && (r.data as object) != p && (r.key as object) != p
    requires p.Length % BSIZE == 0 && q == BSIZE * i < p.Length
    modifies r.data, p
    ensures v' == r.cipher(r.Key(), XorBlock(old(Blocks(p[..]))[i], v))
    ensures Blocks(p[..]) == old(Blocks(p[..]))[i := v']
    ensures r.Key() == old(r.Key())
  {
    ghost var before := p[..];
    v' := RunBlock(r, XorBlock(BlockAt(p[..], q), v));
    StoreBlock(p, q, v');
    OneBlockStored(before, p[..], i);
  }

  method CbcEncryptInPlace(r: AesReg, p: array<byte>, s: AESstate)
    requires r.Valid() && s.Valid() && p.Length % BSIZE == 0 && Separate(r, p, s)
    modifies r.data, p, s.ivec
    ensures Blocks(p[..]) == CbcEncrypt(r.cipher, r.Key(), old(BlockAt(s.ivec[..], 0)), old(Blocks(p[..])))
    ensures BlockAt(s.ivec[..], 0) == Last(old(BlockAt(s.ivec[..], 0)), Blocks(p[..]))
  {
    ghost var key, iv, m := r.Key(), BlockAt(s.ivec[..], 0), Blocks(p[..]);
    ghost var now, i := m, 0;
    var v := BlockAt(s.ivec[..], 0);
    var q := 0;
    while q < p.Length
      invariant now == Blocks(p[..]) && q == BSIZE * i && q <= p.Length
      invariant r.Key() == key
      invariant Encrypted(r.cipher, key, iv, m, now, i, v)
    {
      EncryptedNext(r.cipher, key, iv, m, now, i, v);
      v := EncryptBlock(r, p, q, v, i);
      now := Blocks(p[..]);
      q := q + BSIZE;
      i := i + 1;
    }
    assert now[..i] == now;
    StoreBlock(s.ivec, 0, v);
  }

  /** Storing block i leaves the other blocks alone. */
  lemma OneBlockStored(p: seq<byte>, q: seq<byte>, i: nat)
    requires |p| == |q| && |p| % BSIZE == 0 && BSIZE * i + BSIZE <= |p|
    requires p[..BSIZE * i] == q[..BSIZE * i] && p[BSIZE * i + BSIZE..] == q[BSIZE * i + BSIZE..]
    ensures Blocks(q) == Blocks(p)[i := BlockAt(q, BSIZE * i)]
  {
    forall k | 0 <= k < |p| / BSIZE && k != i
      ensures BlockAt(q, BSIZE * k) == BlockAt(p, BSIZE * k)
    {
      var at := BSIZE * k;
      if k < i {
        assert p[at..at + BSIZE] == p[..BSIZE * i][at..at + BSIZE];
        assert q[at..at + BSIZE] == q[..BSIZE * i][at..at + BSIZE];
      } else {
        var past := BSIZE * i + BSIZE;
        assert p[at..at + BSIZE] == p[past..][at - past..at - past + BSIZE];
        assert q[at..at + BSIZE] == q[past..][at - past..at - past + BSIZE];
      }
      BlockOfSlice(p, at);
      BlockOfSlice(q, at);
    }
  }

  lemma BlockOfSlice(p: seq<byte>, at: nat)
    requires at + BSIZE <= |p|
    ensures BlockAt(p, at) == BlockAt(p[at..at + BSIZE], 0)
  {
  }

  /** What decryption leaves in the chaining vector: not the last block of the
      ciphertext but the one before it, because the two buffers are exchanged after
      every block. */
  function Stored(iv: Block, c: seq<Block>): Block
    requires c != []
  {
    Last(iv, c[..|c| - 1])
  }

  /** The first i blocks of now are decrypted, and v holds the last ciphertext block
      met. */
  ghost predicate Decrypted(d: Cipher, key: seq<word>, iv: Block, c: seq<Block>, now: seq<Block>, i: nat, v: Block) {
    && |now| == |c| && i <= |c|
    && now[i..] == c[i..]
    && v == Last(iv, c[..i])
    && now[..i] + CbcDecrypt(d, key, v, c[i..]) == CbcDecrypt(d, key, iv, c)
  }

  lemma DecryptedNext(d: Cipher, key: seq<word>, iv: Block, c: seq<Block>, now: seq<Block>, i: nat, v: Block)
    requires Decrypted(d, key, iv, c, now, i, v) && i < |c|
    ensures now[i] == c[i]
    ensures Decrypted(d, key, iv, c, now[i := XorBlock(d(key, c[i]), v)], i + 1, c[i])
    ensures Stored(iv, c[..i + 1]) == v
  {
    assert c[..i + 1][..i] == c[..i];
    assert now[i] == now[i..][0] == c[i..][0];
    var m := XorBlock(d(key, c[i]), v);
    var next := now[i := m];
    assert next[i + 1..] == now[i..][1..] == c[i + 1..];
    assert c[i..][1..] == c[i + 1..];
    assert next[..i + 1] == now[..i] + [m];
  }

  /** Decrypts block i with the chaining value a, and returns its ciphertext. */
  method DecryptBlock(r: AesReg, p: array<byte>, q: nat, a: Block, ghost i: nat) returns (b: Block)
    requires r.Valid() && (r.data as object) != p && (r.key as object) != p
    requires p.Length % BSIZE == 0 && q == BSIZE * i < p.Length
    modifies r.data, p
    ensures b == old(Blocks(p[..]))[i]
    ensures Blocks(p[..]) == old(Blocks(p[..]))[i := XorBlock(r.cipher(r.Key(), b), a)]
    ensures r.Key() == old(r.Key())
  {
    ghost var before := p[..];
    b := BlockAt(p[..], q);
    var out := RunBlock(r, b);
    StoreBlock(p, q, XorBlock(out, a));
    OneBlockStored(before, p[..], i);
  }

  /** The source exchanges pointers to its two buffers; here a and b are the buffers'
      contents.  For an empty message the chaining vector is overwritten with an
      uninitialised buffer, so nothing is promised of it. */
  method CbcDecryptInPlace(r: AesReg, p: array<byte>, s: AESstate)
    requires r.Valid() && s.Valid() && p.Length % BSIZE == 0 && Separate(r, p, s)
    modifies r.data, p, s.ivec
    ensures Blocks(p[..]) == CbcDecrypt(r.cipher, r.Key(), old(BlockAt(s.ivec[..], 0)), old(Blocks(p[..])))
    ensures p.Length > 0 ==> BlockAt(s.ivec[..], 0) == Stored(old(BlockAt(s.ivec[..], 0)), old(Blocks(p[..])))
  {
    ghost var key, iv, c := r.Key(), BlockAt(s.ivec[..], 0), Blocks(p[..]);
    ghost var now, i := c, 0;
    var a := BlockAt(s.ivec[..], 0);
    var b: Block := *;
    var q := 0;
    while q < p.Length
      invariant now == Blocks(p[..]) && q == BSIZE * i && q <= p.Length
      invariant r.Key() == key
      invariant Decrypted(r.cipher, key, iv, c, now, i, a)
      invariant i > 0 ==> b == Stored(iv, c[..i])
    {
      DecryptedNext(r.cipher, key, iv, c, now, i, a);
      b := DecryptBlock(r, p, q, a, i);
      now := Blocks(p[..]);
      q := q + BSIZE;
      a, b := b, a;
      i := i + 1;
    }
    assert now[..i] == now && c[..i] == c;
    StoreBlock(s.ivec, 0, b);
  }

  /** The call as the rest of the system sees it: false, with nothing changed but the
      engine, for a key of the wrong length. */
  method AesCbc(p: array<byte>, s: AESstate, enc: bool, r: AesReg) returns (ok: bool)
    requires r.Valid() && s.Valid() && p.Length % BSIZE == 0 && Separate(r, p, s)
    modifies r`cmd, r.key, r.data, p, s.ivec
    ensures ok <==> s.keybytes in {16, 24, 32}
    ensures r.Valid()
    ensures !ok ==> p[..] == old(p[..]) && s.ivec[..] == old(s.ivec[..])
    ensures ok && enc ==>
      Blocks(p[..]) == CbcEncrypt(r.cipher, KeyFrom(s.key[..]), old(BlockAt(s.ivec[..], 0)), old(Blocks(p[..])))
    ensures ok && enc ==> BlockAt(s.ivec[..], 0) == Last(old(BlockAt(s.ivec[..], 0)), Blocks(p[..]))
    ensures ok && !enc ==>
      Blocks(p[..]) == CbcDecrypt(r.cipher, KeyFrom(s.key[..]), old(BlockAt(s.ivec[..], 0)), old(Blocks(p[..])))
    ensures ok && !enc && p.Length > 0 ==>
      BlockAt(s.ivec[..], 0) == Stored(old(BlockAt(s.ivec[..], 0)), old(Blocks(p[..])))
  {
    ok := LoadKey(r, s);
    if !ok {
      return;
    }
    if enc {
      CbcEncryptInPlace(r, p, s);
    } else {
      CbcDecryptInPlace(r, p, s);
    }
  }

  // ---------- what the calls are to each other ----------

  lemma BlockInjective(p: seq<byte>, q: seq<byte>, at: nat)
    requires at + BSIZE <= |p| == |q| && BlockAt(p, at) == BlockAt(q, at)
    ensures p[at..at + BSIZE] == q[at..at + BSIZE]
  {
    BeInjective(p, q, at);
    BeInjective(p, q, at + 4);
    BeInjective(p, q, at + 8);
    BeInjective(p, q, at + 12);
    SlicesJoin(p, q, at, at + 4, at + 8);
    SlicesJoin(p, q, at + 8, at + 12, at + BSIZE);
    SlicesJoin(p, q, at, at + 8, at + BSIZE);
  }

  lemma SlicesJoin(p: seq<byte>, q: seq<byte>, a: nat, b: nat, c: nat)
    requires a <= b <= c <= |p| == |q| && p[a..b] == q[a..b] && p[b..c] == q[b..c]
    ensures p[a..c] == q[a..c]
  {
    assert p[a..c] == p[a..b] + p[b..c] && q[a..c] == q[a..b] + q[b..c];
  }

  lemma BlocksInjective(p: seq<byte>, q: seq<byte>)
    requires |p| == |q| && |p| % BSIZE == 0 && Blocks(p) == Blocks(q)
    ensures p == q
  {
    forall j | 0 <= j < |p|
      ensures p[j] == q[j]
    {
      var i := j / BSIZE;
      var at := BSIZE * i;
      assert Blocks(p)[i] == BlockAt(p, at) && Blocks(q)[i] == BlockAt(q, at);
      BlockInjective(p, q, at);
      assert p[j] == p[at..at + BSIZE][j - at] && q[j] == q[at..at + BSIZE][j - at];
    }
  }

  /** Decryption in place undoes encryption in place under the same key and vector,
      when the engine's decryption inverts its encryption. */
  method RoundTrip(p: array<byte>, key: seq<byte>, iv: seq<byte>, er: AesReg, dr: AesReg)
    requires |iv| == BSIZE && |key| in {16, 24, 32} && p.Length % BSIZE == 0
    requires er.Valid() && dr.Valid() && Inverse(dr.cipher, er.cipher)
    requires (p as object) !in {er.key, er.data, dr.key, dr.data}
    modifies er`cmd, er.key, er.data, dr`cmd, dr.key, dr.data, p
    ensures p[..] == old(p[..])
  {
    ghost var m, k, v := Blocks(p[..]), KeyFrom(key), BlockAt(iv, 0);
    var s := new AESstate(key, iv);
    var ok := AesCbc(p, s, true, er);
    assert Blocks(p[..]) == CbcEncrypt(er.cipher, k, v, m);
    s := new AESstate(key, iv);
    ok := AesCbc(p, s, false, dr);
    DecryptInvertsEncrypt(er.cipher, dr.cipher, k, v, m);
    BlocksInjective(p[..], old(p[..]));
  }

  /** A message encrypted by successive calls that carry the vector forward. */
  function EncryptCalls(e: Cipher, key: seq<word>, iv: Block, parts: seq<seq<Block>>): seq<Block>
    decreases |parts|
  {
    if parts == [] then [] else
    var c := CbcEncrypt(e, key, iv, parts[0]);
    c + EncryptCalls(e, key, Last(iv, c), parts[1..])
  }

  /** However a message is split over calls, its encryption is that of one call. */
  lemma {:induction false} EncryptionSplits(e: Cipher, key: seq<word>, iv: Block, parts: seq<seq<Block>>)
    ensures EncryptCalls(e, key, iv, parts) == CbcEncrypt(e, key, iv, Flatten(parts))
    decreases |parts|
  {
    if parts != [] {
      var c := CbcEncrypt(e, key, iv, parts[0]);
      EncryptionSplits(e, key, Last(iv, c), parts[1..]);
      EncryptConcat(e, key, iv, parts[0], Flatten(parts[1..]));
    }
  }

  /** The blocks of some buffers, one after the other. */
  function Message(bufs: seq<array<byte>>): seq<Block>
    requires WholeBlocks(bufs)
    reads bufs
    decreases |bufs|
  {
    if bufs == [] then [] else Blocks(bufs[0][..]) + Message(bufs[1..])
  }

  predicate WholeBlocks(bufs: seq<array<byte>>)
    decreases |bufs|
  {
    bufs == [] || (bufs[0].Length % BSIZE == 0 && WholeBlocks(bufs[1..]))
  }

  predicate AllSeparate(bufs: seq<array<byte>>, s: AESstate, r: AesReg)
    decreases |bufs|
  {
    bufs == [] || (Separate(r, bufs[0], s) && bufs[0] !in bufs[1..] && AllSeparate(bufs[1..], s, r))
  }

  lemma {:induction false} AllApart(bufs: seq<array<byte>>, s: AESstate, r: AesReg)
    requires AllSeparate(bufs, s, r)
    ensures s.ivec !in bufs && s.key !in bufs
    decreases |bufs|
  {
    if bufs != [] {
      AllApart(bufs[1..], s, r);
    }
  }

  /** Successive calls with the same state, each on a buffer of its own, encrypt the
      buffers as one message. */
  method EncryptBuffers(bufs: seq<array<byte>>, s: AESstate, r: AesReg)
    requires r.Valid() && s.Valid() && s.keybytes in {16, 24, 32}
    requires WholeBlocks(bufs) && AllSeparate(bufs, s, r)
    modifies r`cmd, r.key, r.data, s.ivec, bufs
    ensures r.Valid() && s.key[..] == old(s.key[..])
    ensures Message(bufs) == CbcEncrypt(r.cipher, KeyFrom(s.key[..]), old(BlockAt(s.ivec[..], 0)), old(Message(bufs)))
    decreases |bufs|
  {
    if bufs != [] {
      var first, rest := bufs[0], bufs[1..];
      ghost var a, b := Blocks(first[..]), Message(rest);
      ghost var k, v := KeyFrom(s.key[..]), BlockAt(s.ivec[..], 0);
      AllApart(rest, s, r);
      EncryptFirst(first, rest, s, r);
      ghost var c := Blocks(first[..]);
      EncryptBuffers(rest, s, r);
      EncryptConcat(r.cipher, k, v, a, b);
      assert Message(bufs) == c + Message(rest);
    }
  }

  method EncryptFirst(first: array<byte>, ghost rest: seq<array<byte>>, s: AESstate, r: AesReg)
    requires r.Valid() && s.Valid() && s.keybytes in {16, 24, 32} && first != s.ivec
    requires Separate(r, first, s) && first.Length % BSIZE == 0 && WholeBlocks(rest)
    requires first !in rest && s.ivec !in rest
    modifies r`cmd, r.key, r.data, s.ivec, first
    ensures r.Valid() && s.key[..] == old(s.key[..]) && Message(rest) == old(Message(rest))
    ensures Blocks(first[..]) ==
      CbcEncrypt(r.cipher, KeyFrom(s.key[..]), old(BlockAt(s.ivec[..], 0)), old(Blocks(first[..])))
    ensures BlockAt(s.ivec[..], 0) == Last(old(BlockAt(s.ivec[..], 0)), Blocks(first[..]))
  {
    var ok := AesCbc(first, s, true, r);
    MessageKept(rest);
  }

  twostate lemma MessageKept(bufs: seq<array<byte>>)
    requires WholeBlocks(bufs) && forall i :: 0 <= i < |bufs| ==> bufs[i][..] == old(bufs[i][..])
    ensures Message(bufs) == old(Message(bufs))
    decreases |bufs|
  {
    if bufs != [] {
      assert forall i :: 0 <= i < |bufs[1..]| ==> bufs[1..][i] == bufs[i + 1];
      MessageKept(bufs[1..]);
      assert bufs[0][..] == old(bufs[0][..]);
    }
  }

  /** Two decryption calls make up one exactly when the block that the first call left
      in the vector happens to equal the last ciphertext block. */
  lemma DecryptionSplitsExactlyWhen(d: Cipher, key: seq<word>, iv: Block, a: seq<Block>, b: seq<Block>)
    requires a != [] && b != []
    ensures CbcDecrypt(d, key, iv, a) + CbcDecrypt(d, key, Stored(iv, a), b) == CbcDecrypt(d, key, iv, a + b)
       <==> Stored(iv, a) == Last(iv, a)
  {
    DecryptConcat(d, key, iv, a, b);
    var x, y := CbcDecrypt(d, key, Stored(iv, a), b), CbcDecrypt(d, key, Last(iv, a), b);
    var m := CbcDecrypt(d, key, iv, a);
    assert (m + x)[|m|] == x[0] && (m + y)[|m|] == y[0];
    XorBlockInjective(d(key, b[0]), Stored(iv, a), Last(iv, a));
  }

  /** For instance, for the identity cipher, a zero vector and a one-block first call. */
  lemma DecryptionSplitCounterexample()
    ensures var d: Cipher, zero, one := (_, x) => x, Block(0, 0, 0, 0), Block(0, 0, 0, 1);
      CbcDecrypt(d, [], zero, [one]) + CbcDecrypt(d, [], Stored(zero, [one]), [zero])
      != CbcDecrypt(d, [], zero, [one, zero])
  {
    var d: Cipher, zero, one := (_, x) => x, Block(0, 0, 0, 0), Block(0, 0, 0, 1);
    DecryptionSplitsExactlyWhen(d, [], zero, [one], [zero]);
    assert [one] + [zero] == [one, zero];
  }
}
