/**
  The buffering of BLAKE2b around its compression function, which is a parameter: what
  is compressed, with which byte counter, does not depend on how the input was split
  into calls, and agrees with section 3.3 of RFC 7693 as long as the 16-bit counter of
  this implementation does not wrap.
*/
module Blake2b {
  import opened Arith
  import opened Bytes
  import opened Verifier

  const BLOCKBYTES: nat := 128
  const OUTBYTES: nat := 64

  /** The eight words of the chaining value. */
  type Chain = h: seq<nat> | |h| == 8 witness [0, 0, 0, 0, 0, 0, 0, 0]

  /** The compression function: chaining value, block, byte counter, last-block flag. */
  type Compression = (Chain, seq<Byte>, nat, bool) -> Chain

  /** The chaining value as it lies in memory. */
  function HashBytes(h: seq<nat>): (s: seq<Byte>)
    ensures |s| == 8 * |h|
  {
    if h == [] then [] else HashBytes(h[..|h| - 1]) + LittleEndian(h[|h| - 1], 8)
  }

  /** Byte j of word i is the word shifted right by 8 j bits, modulo 256. */
  lemma {:induction false} HashBytesAt(h: seq<nat>, i: nat, j: nat)
    requires i < |h| && j < 8
    ensures HashBytes(h)[8 * i + j] == h[i] / Pow2(8 * j) % 0x100
  {
    hide Pow2;
    hide LittleEndian;
    if i == |h| - 1 {
      LittleEndianAt(h[i], 8, j);
    } else {
      HashBytesAt(h[..|h| - 1], i, j);
    }
  }

  lemma AllBytesAt(h: Chain)
    ensures forall i, j :: 0 <= i < 8 && 0 <= j < 8 ==> HashBytes(h)[8 * i + j] == h[i] / Pow2(8 * j) % 0x100
  {
    hide HashBytes, Pow2;
    forall i, j | 0 <= i < 8 && 0 <= j < 8
      ensures HashBytes(h)[8 * i + j] == h[i] / Pow2(8 * j) % 0x100
    {
      HashBytesAt(h, i, j);
    }
  }

  function Padded(block: seq<Byte>): (padded: seq<Byte>)
    requires |block| <= BLOCKBYTES
    ensures |padded| == BLOCKBYTES
    ensures forall i :: 0 <= i < BLOCKBYTES ==> padded[i] == if i < |block| then block[i] else 0
  {
    block + Zeros(BLOCKBYTES - |block|)
  }

  // ---------- the hash of a whole message ----------

  /**
    The blocks of a message of len bytes before the last one; the last block is never empty but
    for the empty message.
  */
  function FullBlocks(len: nat): nat
  {
    if len == 0 then 0 else (len - 1) / BLOCKBYTES
  }

  /** The chaining value after n blocks that are not the last, with a byte counter that wraps at `wrap`. */
  function Chained(F: Compression, h0: Chain, m: seq<Byte>, n: nat, wrap: nat): Chain
    requires BLOCKBYTES * n <= |m| && wrap > 0
  {
    if n == 0 then h0
    else F(Chained(F, h0, m, n - 1, wrap), m[BLOCKBYTES * (n - 1)..BLOCKBYTES * n], BLOCKBYTES * n % wrap, false)
  }

  const WRAP: nat := 0x1_0000

  /** The chaining value after the last block. */
  function FinalChain(F: Compression, h0: Chain, m: seq<Byte>): Chain
  {
    var n := FullBlocks(|m|);
    F(Chained(F, h0, m, n, WRAP), Padded(m[BLOCKBYTES * n..]), |m| % WRAP, true)
  }

  function Digest(F: Compression, h0: Chain, m: seq<Byte>): (s: seq<Byte>)
    ensures |s| == OUTBYTES
  {
    HashBytes(FinalChain(F, h0, m))
  }

  /** Any list of chaining values that goes on from h0 by the compression of block after block ends in it. */
  lemma {:induction false} ChainedExact(F: Compression, h0: Chain, m: seq<Byte>, n: nat, chain: seq<Chain>)
    requires BLOCKBYTES * n <= |m| && |chain| == n + 1 && chain[0] == h0
    requires forall k :: 0 <= k < n ==>
               chain[k + 1] == F(chain[k], m[128 * k..128 * (k + 1)], 128 * (k + 1) % 0x1_0000, false)
    ensures Chained(F, h0, m, n, WRAP) == chain[n]
  {
    if n > 0 {
      ChainedExact(F, h0, m, n - 1, chain[..n]);
      assert chain[n - 1 + 1] == F(chain[n - 1], m[128 * (n - 1)..128 * (n - 1 + 1)], 128 * n % 0x1_0000, false);
    }
  }

  /** The last block is the rest of the message after n blocks, never empty unless the message is, and zeros. */
  lemma FinalChainExact(F: Compression, h0: Chain, m: seq<Byte>, n: nat, block: seq<Byte>)
    requires 128 * n <= |m| <= 128 * n + 128 && (128 * n < |m| || n == 0) && |block| == 128
    requires forall i :: 0 <= i < 128 ==> block[i] == if 128 * n + i < |m| then m[128 * n + i] else 0
    ensures FinalChain(F, h0, m) == F(Chained(F, h0, m, n, 0x1_0000), block, |m| % 0x1_0000, true)
  {
    hide Chained;
    assert FullBlocks(|m|) == n;
    assert Padded(m[128 * n..]) == block;
  }

  /** Section 3.3 of RFC 7693, without a key: dd blocks, counters that do not wrap. */
  function Blocks(len: nat): nat
  {
    if len == 0 then 1 else (len + BLOCKBYTES - 1) / BLOCKBYTES
  }

  function RfcChained(F: Compression, h0: Chain, m: seq<Byte>, n: nat): Chain
    requires BLOCKBYTES * n <= |m|
  {
    if n == 0 then h0
    else F(RfcChained(F, h0, m, n - 1), m[BLOCKBYTES * (n - 1)..BLOCKBYTES * n], BLOCKBYTES * n, false)
  }

  /** What is left of the message after n blocks, and zeros up to a whole block. */
  function RfcLastBlock(m: seq<Byte>, n: nat): seq<Byte>
  {
    seq(BLOCKBYTES, i requires i >= 0 => if BLOCKBYTES * n + i < |m| then m[BLOCKBYTES * n + i] else 0)
  }

  /** The chaining value after the last block; its words are put out least significant byte first. */
  function RfcFinalChain(F: Compression, h0: Chain, m: seq<Byte>): Chain
  {
    var dd := Blocks(|m|);
    F(RfcChained(F, h0, m, dd - 1), RfcLastBlock(m, dd - 1), |m|, true)
  }

  function RfcDigest(F: Compression, h0: Chain, m: seq<Byte>): seq<Byte>
  {
    seq(OUTBYTES, k requires 0 <= k < OUTBYTES => DigestByte(RfcFinalChain(F, h0, m), k))
  }

  /** Byte k of the words of h in memory. */
  function DigestByte(h: Chain, k: nat): (b: Byte)
    requires k < OUTBYTES
    ensures b == h[k / 8] / Pow2(8 * (k % 8)) % 0x100
  {
    h[k / 8] / Pow2(8 * (k % 8)) % 0x100
  }

  /** Below 2^16 bytes the counters agree. */
  lemma DigestIsRfc(F: Compression, h0: Chain, m: seq<Byte>)
    requires |m| < WRAP
    ensures Digest(F, h0, m) == RfcDigest(F, h0, m)
    ensures forall i, j :: 0 <= i < 8 && 0 <= j < 8 ==>
              Digest(F, h0, m)[8 * i + j] == RfcFinalChain(F, h0, m)[i] / Pow2(8 * j) % 0x100
  {
    hide Pow2, HashBytes, DigestByte;
    FinalChainIsRfc(F, h0, m);
    var h := FinalChain(F, h0, m);
    hide FinalChain, RfcFinalChain;
    forall k | 0 <= k < OUTBYTES
      ensures HashBytes(h)[k] == DigestByte(h, k)
    {
      HashBytesAt(h, k / 8, k % 8);
    }
    AllBytesAt(h);
  }

  lemma FinalChainIsRfc(F: Compression, h0: Chain, m: seq<Byte>)
    requires |m| < WRAP
    ensures FinalChain(F, h0, m) == RfcFinalChain(F, h0, m)
  {
    hide Chained, RfcChained;
    var n := FullBlocks(|m|);
    SameChain(F, h0, m, n);
    assert Blocks(|m|) - 1 == n;
    assert Padded(m[BLOCKBYTES * n..]) == RfcLastBlock(m, n);
  }

  lemma {:induction false} SameChain(F: Compression, h0: Chain, m: seq<Byte>, n: nat)
    requires |m| < WRAP && BLOCKBYTES * n <= |m|
    ensures Chained(F, h0, m, n, WRAP) == RfcChained(F, h0, m, n)
  {
    if n == 0 {
    } else {
      SameChain(F, h0, m, n - 1);
    }
  }

  /** Blocks that are complete do not change when more input follows. */
  lemma {:induction false} ChainedMore(F: Compression, h0: Chain, m: seq<Byte>, more: seq<Byte>, n: nat)
    requires BLOCKBYTES * n <= |m|
    ensures Chained(F, h0, m + more, n, WRAP) == Chained(F, h0, m, n, WRAP)
  {
    if n == 0 {
    } else {
      ChainedMore(F, h0, m, more, n - 1);
      assert (m + more)[BLOCKBYTES * (n - 1)..BLOCKBYTES * n] == m[BLOCKBYTES * (n - 1)..BLOCKBYTES * n];
    }
  }

  // ---------- the state ----------

  class Blake2bState {
    var h: Chain
    var buf: array<Byte>
    var counter: nat
    var buflen: nat
    var lastblock: bool
    /** The chaining value at the start, and the input taken since. */
    ghost var start: Chain
    ghost var fed: seq<Byte>

    /** n blocks are compressed and the rest of the input is in the buffer. */
    ghost predicate At(F: Compression, n: nat)
      reads this, buf
    {
      && buf.Length == BLOCKBYTES && !lastblock
      && BLOCKBYTES * n <= |fed| <= BLOCKBYTES * n + BLOCKBYTES
      && buflen == |fed| - BLOCKBYTES * n && buf[..buflen] == fed[BLOCKBYTES * n..]
      && h == Chained(F, start, fed, n, WRAP) && counter == BLOCKBYTES * n % WRAP
    }

    /** Only blocks that are known not to be the last are compressed. */
    ghost predicate Valid(F: Compression)
      reads this, buf
    {
      At(F, FullBlocks(|fed|))
    }

    /** The state after blake2b_init_param has set the chaining value. */
    constructor (h0: Chain, ghost F: Compression)
      ensures Valid(F) && fresh(buf) && start == h0 && fed == []
    {
      h := h0;
      buf := new Byte[BLOCKBYTES];
      counter, buflen, lastblock := 0, 0, false;
      start, fed := h0, [];
    }

    /** Copy of the structure, buffer included. */
    constructor Copy(s: Blake2bState, ghost F: Compression)
      requires s.Valid(F)
      ensures Valid(F) && fresh(buf) && start == s.start && fed == s.fed
    {
      h := s.h;
      var bytes := s.buf;
      buf := new Byte[BLOCKBYTES](i requires 0 <= i < bytes.Length reads bytes => bytes[i]);
      counter, buflen, lastblock := s.counter, s.buflen, s.lastblock;
      start, fed := s.start, s.fed;
      new;
      assert buf[..] == s.buf[..];
      assert buf[..buflen] == s.buf[..buflen];
    }

    method Fill(input: seq<Byte>)
      requires buf.Length == BLOCKBYTES && buflen + |input| <= BLOCKBYTES
      modifies buf
      ensures buf[..buflen + |input|] == old(buf[..buflen]) + input
    {
      forall k | 0 <= k < |input| {
        buf[buflen + k] := input[k];
      }
    }

    /** The input fills the buffer, which is compressed because more follows. */
    method CompressFull(F: Compression, input: seq<Byte>, ghost n: nat)
      requires At(F, n) && buflen + |input| == BLOCKBYTES
      modifies this, buf
      ensures At(F, n + 1) && buf == old(buf) && start == old(start) && fed == old(fed) + input
    {
      Fill(input);
      counter := (counter + BLOCKBYTES) % WRAP;
      NextBlock(F, start, fed, input, n, buf[..]);
      CounterNext(n);
      assert buf[..BLOCKBYTES] == buf[..];
      h := F(h, buf[..], counter, lastblock);
      buflen := 0;
      fed := fed + input;
    }

    /** Input that does not overflow the buffer is only stored. */
    method Store(F: Compression, input: seq<Byte>, ghost n: nat)
      requires At(F, n) && input != [] && buflen + |input| <= BLOCKBYTES
      modifies this, buf
      ensures At(F, n) && buf == old(buf) && start == old(start) && fed == old(fed) + input && n == FullBlocks(|fed|)
    {
      hide Chained;
      KeepRest(F, start, fed, input, n);
      Fill(input);
      buflen := buflen + |input|;
      fed := fed + input;
    }

    method Update(F: Compression, input: seq<Byte>)
      requires Valid(F)
      modifies this, buf
      ensures Valid(F) && buf == old(buf) && start == old(start) && fed == old(fed) + input
    {
      hide Chained;
      hide At;
      var pos := 0;
      ghost var n := FullBlocks(|fed|);
      while pos < |input|
        invariant 0 <= pos <= |input| && At(F, n) && buf == old(buf) && start == old(start)
        invariant fed == old(fed) + input[..pos] && (pos == |input| ==> n == FullBlocks(|fed|))
        decreases |input| - pos, buflen
      {
        Holding(F, n);
        var fill := BLOCKBYTES - buflen;
        if |input| - pos > fill {
          NextSlice(old(fed), input, pos, pos + fill);
          CompressFull(F, input[pos..pos + fill], n);
          pos := pos + fill;
          n := n + 1;
          Holding(F, n);
        } else {
          NextSlice(old(fed), input, pos, |input|);
          Store(F, input[pos..], n);
          pos := |input|;
        }
      }
      assert input[..|input|] == input;
    }

    lemma Holding(F: Compression, n: nat)
      requires At(F, n)
      ensures buf.Length == BLOCKBYTES && buflen == |fed| - BLOCKBYTES * n <= BLOCKBYTES
    {
    }

    /** The digest; a length that is too large is refused. The buffer never holds more than one block here. */
    method Final(F: Compression, outlen: nat) returns (ok: bool, out: seq<Byte>)
      requires Valid(F)
      modifies this, buf
      ensures ok <==> outlen <= OUTBYTES
      ensures ok ==> out == Digest(F, old(start), old(fed))[..outlen]
      ensures ok ==> forall i, j :: 0 <= i && 0 <= j < 8 && 8 * i + j < outlen ==>
                       out[8 * i + j] == FinalChain(F, old(start), old(fed))[i] / Pow2(8 * j) % 0x100
    {
      hide HashBytes, Pow2, Chained;
      if outlen > OUTBYTES {
        return false, [];
      }
      ghost var n := FullBlocks(|fed|);
      LastCounter(n, buflen);
      counter := (counter + buflen) % WRAP;
      lastblock := true;
      ghost var kept := buf[..buflen];
      forall k | buflen <= k < BLOCKBYTES {
        buf[k] := 0;
      }
      assert buf[..] == Padded(kept);
      h := F(h, buf[..], counter, lastblock);
      out := HashBytes(h)[..outlen];
      AllBytesAt(h);
      lastblock := false;
      return true, out;
    }
  }

  lemma CounterNext(n: nat)
    ensures (BLOCKBYTES * n % WRAP + BLOCKBYTES) % WRAP == BLOCKBYTES * (n + 1) % WRAP
  {
    LastCounter(n, BLOCKBYTES);
  }

  lemma LastCounter(n: nat, k: nat)
    ensures (BLOCKBYTES * n % WRAP + k) % WRAP == (BLOCKBYTES * n + k) % WRAP
  {
    CounterSum(BLOCKBYTES * n, k);
  }

  lemma CounterSum(x: nat, k: nat)
    ensures (x % WRAP + k) % WRAP == (x + k) % WRAP
  {
    DivMod(x, WRAP);
    ModShift(WRAP, x / WRAP, x % WRAP + k);
  }

  lemma NextBlock(F: Compression, h0: Chain, fed: seq<Byte>, input: seq<Byte>, n: nat, block: seq<Byte>)
    requires BLOCKBYTES * n <= |fed| && |fed| + |input| == BLOCKBYTES * (n + 1)
    requires block == fed[BLOCKBYTES * n..] + input
    ensures Chained(F, h0, fed + input, n + 1, WRAP) ==
              F(Chained(F, h0, fed, n, WRAP), block, BLOCKBYTES * (n + 1) % WRAP, false)
    ensures (fed + input)[BLOCKBYTES * (n + 1)..] == []
  {
    ChainedMore(F, h0, fed, input, n);
    assert (fed + input)[BLOCKBYTES * n..BLOCKBYTES * (n + 1)] == block;
  }

  lemma KeepRest(F: Compression, h0: Chain, fed: seq<Byte>, input: seq<Byte>, n: nat)
    requires BLOCKBYTES * n <= |fed| && input != [] && |fed| + |input| <= BLOCKBYTES * (n + 1)
    ensures Chained(F, h0, fed + input, n, WRAP) == Chained(F, h0, fed, n, WRAP)
    ensures (fed + input)[BLOCKBYTES * n..] == fed[BLOCKBYTES * n..] + input && FullBlocks(|fed + input|) == n
  {
    ChainedMore(F, h0, fed, input, n);
  }

  // ---------- the midstate of the solver ----------

  /** The block function of the solver: header and nonce, then the block number as four bytes. */
  function BlockHash(F: Compression, h0: Chain, prefix: seq<Byte>): Blake
  {
    (block: nat) => Digest(F, h0, prefix + LittleEndian(block, 4))[..54]
  }

  /** setheader: the state after header and nonce. */
  method SetHeader(F: Compression, h0: Chain, header: seq<Byte>, nonce: seq<Byte>) returns (ctx: Blake2bState)
    ensures fresh(ctx) && fresh(ctx.buf) && ctx.Valid(F) && ctx.start == h0 && ctx.fed == header + nonce
  {
    ctx := new Blake2bState(h0, F);
    ctx.Update(F, header);
    ctx.Update(F, nonce);
    assert [] + header + nonce == header + nonce;
  }

  /** genhash: a copy of the midstate gives the hash that hashing header, nonce and block number together gives. */
  method GenHashFrom(F: Compression, ctx: Blake2bState, idx: nat) returns (hash: seq<Byte>)
    requires ctx.Valid(F)
    ensures hash == HashAt(BlockHash(F, ctx.start, ctx.fed), idx)
    ensures |hash| == 27 && forall i :: 0 <= i < 27 ==>
              hash[i] == Digest(F, ctx.start, ctx.fed + LittleEndian(idx / 2, 4))[27 * (idx % 2) + i]
  {
    var state := new Blake2bState.Copy(ctx, F);
    state.Update(F, LittleEndian(idx / 2, 4));
    var ok, blakehash := state.Final(F, 54);
    hash := blakehash[idx % 2 * 27..idx % 2 * 27 + 27];
  }
}
