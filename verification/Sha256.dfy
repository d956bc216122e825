/**
  The buffering and padding of CSHA256 around Transform, which is a parameter: what is
  transformed is the message padded as in section 5.1.1 of FIPS 180-4, however it was
  split into calls of Write.
*/
module Sha256 {
  import opened Arith
  import opened Bytes

  const BLOCKBYTES: nat := 64
  const OUTPUTBYTES: nat := 32

  /** The eight words of the state, and the transformation by one block. */
  type Word = x: nat | x < U32
  type Words = s: seq<Word> | |s| == 8 witness [0, 0, 0, 0, 0, 0, 0, 0]
  type Transform = (Words, seq<Byte>) -> Words

  /** The bytes in the buffer once n bytes have been written. */
  function BufSize(n: nat): (r: nat)
    ensures r < BLOCKBYTES
  {
    n % BLOCKBYTES
  }

  /** The whole blocks among n bytes. */
  function Blocks(n: nat): (b: nat)
    ensures n == BLOCKBYTES * b + BufSize(n)
  {
    DivMod(n, BLOCKBYTES);
    n / BLOCKBYTES
  }

  /** The 64-bit count of n bytes. */
  function Count(n: nat): (c: nat)
    ensures c < U64
  {
    n % U64
  }

  lemma BlocksAre(n: nat, b: nat, r: nat)
    requires n == BLOCKBYTES * b + r && r < BLOCKBYTES
    ensures Blocks(n) == b && BufSize(n) == r
  {
    DivUnique(n, BLOCKBYTES, b, r);
  }

  /** The next block is full. */
  lemma BlockFilled(n: nat)
    ensures Blocks(n + (BLOCKBYTES - BufSize(n))) == Blocks(n) + 1
    ensures BufSize(n + (BLOCKBYTES - BufSize(n))) == 0 && BufSize(n + BLOCKBYTES) == BufSize(n)
  {
    BlocksAre(n + (BLOCKBYTES - BufSize(n)), Blocks(n) + 1, 0);
    BlocksAre(n + BLOCKBYTES, Blocks(n) + 1, BufSize(n));
  }

  /** It is not. */
  lemma BlockOpen(n: nat, d: nat)
    requires BufSize(n) + d < BLOCKBYTES
    ensures Blocks(n + d) == Blocks(n) && BufSize(n + d) == BufSize(n) + d
  {
    BlocksAre(n + d, Blocks(n), BufSize(n) + d);
  }

  /** The count says how full the buffer is, and adds up modulo 2^64. */
  lemma CountMore(n: nat, d: nat)
    ensures BufSize(Count(n)) == BufSize(n) && (Count(n) + d) % U64 == Count(n + d)
  {
    var q, c := n / U64, n % U64;
    DivMod(n, U64);
    BlocksAre(n, 0x400_0000_0000_0000 * q + Blocks(c), BufSize(c));
    assert n + d == U64 * q + (c + d);
    ModShift(U64, q, c + d);
  }

  /** The state after the first n blocks of m. */
  function Chained(T: Transform, s0: Words, m: seq<Byte>, n: nat): Words
    requires BLOCKBYTES * n <= |m|
  {
    if n == 0 then s0 else T(Chained(T, s0, m, n - 1), m[BLOCKBYTES * (n - 1)..BLOCKBYTES * n])
  }

  /** Any list of states that begins with s0 and goes on by the transformation of block after block ends in it. */
  lemma {:induction false} ChainedExact(T: Transform, s0: Words, m: seq<Byte>, n: nat, states: seq<Words>)
    requires BLOCKBYTES * n <= |m| && |states| == n + 1 && states[0] == s0
    requires forall k :: 0 <= k < n ==> states[k + 1] == T(states[k], m[BLOCKBYTES * k..BLOCKBYTES * (k + 1)])
    ensures Chained(T, s0, m, n) == states[n]
  {
    if n > 0 {
      ChainedExact(T, s0, m, n - 1, states[..n]);
      assert states[n - 1 + 1] == T(states[n - 1], m[BLOCKBYTES * (n - 1)..BLOCKBYTES * (n - 1 + 1)]);
    }
  }

  /** The smallest number of zero bytes after the mark that leaves room for the length at the end of a block. */
  ghost predicate IsGap(len: nat, k: nat)
  {
    EndsBlock(len, k) && forall j: nat :: j < k ==> !EndsBlock(len, j)
  }

  predicate EndsBlock(len: nat, k: nat)
  {
    (len + 1 + k + 8) % BLOCKBYTES == 0
  }

  /** p is m followed by a one bit, the fewest zero bits and the length of m in bits as 64 bits, modulo 2^64. */
  ghost predicate IsPadded(m: seq<Byte>, p: seq<Byte>)
  {
    exists k :: IsGap(|m|, k) && p == m + [0x80] + Zeros(k) + BigEndian(8 * |m| % U64, 8)
  }

  lemma {:induction false} ChainedMore(T: Transform, s0: Words, m: seq<Byte>, more: seq<Byte>, n: nat)
    requires BLOCKBYTES * n <= |m|
    ensures Chained(T, s0, m + more, n) == Chained(T, s0, m, n)
  {
    if n == 0 {
    } else {
      ChainedMore(T, s0, m, more, n - 1);
      assert (m + more)[BLOCKBYTES * (n - 1)..BLOCKBYTES * n] == m[BLOCKBYTES * (n - 1)..BLOCKBYTES * n];
    }
  }

  /** One block more. */
  lemma NextBlock(T: Transform, s0: Words, fed: seq<Byte>, input: seq<Byte>, block: seq<Byte>)
    requires var n := Blocks(|fed|);
             |fed| + |input| == BLOCKBYTES * (n + 1) && block == fed[BLOCKBYTES * n..] + input
    ensures var n := Blocks(|fed|);
            Chained(T, s0, fed + input, n + 1) == T(Chained(T, s0, fed, n), block)
  {
    var n := Blocks(|fed|);
    ChainedMore(T, s0, fed, input, n);
    assert (fed + input)[BLOCKBYTES * n..BLOCKBYTES * (n + 1)] == block;
  }

  class CSHA256 {
    var s: Words
    var buf: array<Byte>
    var bytes: nat
    /** The initial state, and the input written since. */
    ghost var start: Words
    ghost var fed: seq<Byte>

    ghost predicate Valid(T: Transform)
      reads this, buf
    {
      var n := Blocks(|fed|);
      && buf.Length == BLOCKBYTES && bytes == Count(|fed|)
      && s == Chained(T, start, fed, n)
      && buf[..BufSize(|fed|)] == fed[BLOCKBYTES * n..]
    }

    constructor (s0: Words, ghost T: Transform)
      ensures Valid(T) && fresh(buf) && start == s0 && fed == []
    {
      s := s0;
      buf := new Byte[BLOCKBYTES];
      bytes := 0;
      start, fed := s0, [];
    }

    method Fill(at: nat, data: seq<Byte>)
      requires buf.Length == BLOCKBYTES && at + |data| <= BLOCKBYTES
      modifies buf
      ensures buf[..at + |data|] == old(buf[..at]) + data
    {
      forall k | 0 <= k < |data| {
        buf[at + k] := data[k];
      }
    }

    /** Data that completes a block in the buffer. */
    method FillAndTransform(T: Transform, data: seq<Byte>)
      requires Valid(T) && |data| == BLOCKBYTES - BufSize(|fed|)
      modifies this, buf
      ensures Valid(T) && buf == old(buf) && start == old(start) && fed == old(fed) + data
    {
      hide Chained, BufSize, Blocks, Count;
      CountMore(|fed|, |data|);
      BlockFilled(|fed|);
      Fill(BufSize(bytes), data);
      assert buf[..BLOCKBYTES] == buf[..];
      NextBlock(T, start, fed, data, buf[..]);
      bytes := (bytes + (BLOCKBYTES - BufSize(bytes))) % U64;
      s := T(s, buf[..]);
      fed := fed + data;
    }

    /** A whole block taken from the input, the buffer being empty. */
    method TransformChunk(T: Transform, chunk: seq<Byte>)
      requires Valid(T) && |chunk| == BLOCKBYTES && BufSize(|fed|) == 0
      modifies this
      ensures Valid(T) && buf == old(buf) && start == old(start) && fed == old(fed) + chunk
    {
      hide Chained, BufSize, Blocks, Count;
      CountMore(|fed|, BLOCKBYTES);
      BlockFilled(|fed|);
      NextBlock(T, start, fed, chunk, chunk);
      s := T(s, chunk);
      bytes := (bytes + BLOCKBYTES) % U64;
      fed := fed + chunk;
    }

    /** What is left over goes to the buffer. */
    method Store(T: Transform, data: seq<Byte>)
      requires Valid(T) && BufSize(|fed|) + |data| < BLOCKBYTES
      modifies this, buf
      ensures Valid(T) && buf == old(buf) && start == old(start) && fed == old(fed) + data
    {
      hide Chained, BufSize, Blocks, Count;
      CountMore(|fed|, |data|);
      BlockOpen(|fed|, |data|);
      Fill(BufSize(bytes), data);
      ChainedMore(T, start, fed, data, Blocks(|fed|));
      bytes := (bytes + |data|) % U64;
      fed := fed + data;
    }

    method Write(T: Transform, data: seq<Byte>)
      requires Valid(T)
      modifies this, buf
      ensures Valid(T) && buf == old(buf) && start == old(start) && fed == old(fed) + data
    {
      hide Chained, Valid, BufSize, Blocks, Count;
      BytesModulo(T);
      BlockFilled(|fed|);
      var bufsize := BufSize(bytes);
      var pos := 0;
      if bufsize != 0 && bufsize + |data| >= BLOCKBYTES {
        FillAndTransform(T, data[..BLOCKBYTES - bufsize]);
        pos := BLOCKBYTES - bufsize;
        bufsize := 0;
      }
      while |data| - pos >= BLOCKBYTES
        invariant 0 <= pos <= |data| && Valid(T) && buf == old(buf) && start == old(start)
        invariant fed == old(fed) + data[..pos] && bufsize == BufSize(|fed|)
        invariant bufsize == 0 || bufsize + (|data| - pos) < BLOCKBYTES
      {
        NextSlice(old(fed), data, pos, pos + BLOCKBYTES);
        BlockFilled(|fed|);
        TransformChunk(T, data[pos..pos + BLOCKBYTES]);
        pos := pos + BLOCKBYTES;
      }
      NextSlice(old(fed), data, pos, |data|);
      if |data| > pos {
        Store(T, data[pos..]);
      }
    }

    lemma BytesModulo(T: Transform)
      requires Valid(T)
      ensures BufSize(bytes) == BufSize(|fed|) && bytes == Count(|fed|) && buf.Length == BLOCKBYTES
    {
      hide BufSize, Blocks, Count;
      CountMore(|fed|, 0);
    }

    /** Finalize: the mark, the zeros and the length are written; what is put out is the state of the padded message. */
    method Finalize(T: Transform, hash: array<Byte>) returns (ghost padded: seq<Byte>)
      requires Valid(T) && hash.Length == OUTPUTBYTES && hash != buf
      modifies this, buf, hash
      ensures IsPadded(old(fed), padded) && |padded| % BLOCKBYTES == 0
      ensures hash[..] == WordBytes(Chained(T, old(start), padded, |padded| / BLOCKBYTES))
    {
      hide Chained;
      hide Valid;
      hide IsPadded;
      hide IsGap;
      hide Zeros;
      hide BigEndian;
      hide WordBytes;
      BytesModulo(T);
      var sizedesc := BigEndian(bytes * 8 % U64, 8);
      var k := (119 - BufSize(bytes)) % BLOCKBYTES;
      PadGap(|fed|, k);
      EightTimes(|fed|);
      PaddedBy(fed, k);
      Write(T, [0x80] + Zeros(k));
      Write(T, sizedesc);
      StateOf(T);
      padded := fed;
      var ok := FinalizeNoPadding(hash, false);
    }

    lemma StateOf(T: Transform)
      requires Valid(T)
      ensures s == Chained(T, start, fed, Blocks(|fed|))
    {
      hide Chained;
    }

    /**
      FinalizeNoPadding: the words of the state as bytes, unless a single whole block is
      demanded and was not written.
    */
    method FinalizeNoPadding(hash: array<Byte>, enforceCompression: bool) returns (ok: bool)
      requires hash.Length == OUTPUTBYTES
      modifies hash
      ensures ok <==> !(enforceCompression && bytes != BLOCKBYTES)
      ensures hash[..] == if ok then WordBytes(s) else old(hash[..])
    {
      hide BigEndian;
      if enforceCompression && bytes != BLOCKBYTES {
        return false;
      }
      var i := 0;
      while i < 8
        invariant 0 <= i <= 8 && hash[..4 * i] == WordBytes(s[..i])
      {
        WordBytesNext(s, i);
        WriteBE32(hash, 4 * i, s[i]);
        i := i + 1;
      }
      assert s[..8] == s;
      assert hash[..4 * 8] == hash[..];
      return true;
    }
  }

  method WriteBE32(a: array<Byte>, at: nat, x: Word)
    requires at + 4 <= a.Length
    modifies a
    ensures a[..at + 4] == old(a[..at]) + BigEndian(x, 4)
  {
    var bytes := BigEndian(x, 4);
    forall k | 0 <= k < 4 {
      a[at + k] := bytes[k];
    }
  }

  /** Words in memory, the most significant byte of each first. */
  function WordBytes(w: seq<Word>): (s: seq<Byte>)
    ensures |s| == 4 * |w|
  {
    if w == [] then [] else WordBytes(w[..|w| - 1]) + BigEndian(w[|w| - 1], 4)
  }

  /** Byte j of word i is the word shifted right by 8 (3 - j) bits, modulo 256. */
  lemma {:induction false} WordBytesAt(w: seq<Word>, i: nat, j: nat)
    requires i < |w| && j < 4
    ensures WordBytes(w)[4 * i + j] == w[i] / Pow2(8 * (3 - j)) % 0x100
  {
    hide Pow2;
    hide BigEndian;
    if i == |w| - 1 {
      BigEndianAt(w[i], 4, j);
    } else {
      WordBytesAt(w[..|w| - 1], i, j);
    }
  }

  lemma WordBytesNext(w: seq<Word>, i: nat)
    requires i < |w|
    ensures WordBytes(w[..i + 1]) == WordBytes(w[..i]) + BigEndian(w[i], 4)
  {
    assert w[..i + 1][..i] == w[..i];
  }

  /** The digest gives the words of the state back. */
  lemma {:induction false} WordBytesInjective(w: seq<Word>, v: seq<Word>)
    requires |w| == |v| && WordBytes(w) == WordBytes(v)
    ensures w == v
  {
    hide BigEndian;
    if w == [] {
    } else {
      var n := |w| - 1;
      SameSplit(WordBytes(w[..n]), BigEndian(w[n], 4), WordBytes(v[..n]), BigEndian(v[n], 4));
      WordBytesInjective(w[..n], v[..n]);
      WordFits();
      BigEndianInjective(w[n], v[n], 4);
      assert w == w[..n] + [w[n]] && v == v[..n] + [v[n]];
    }
  }

  lemma SameSplit(a: seq<Byte>, b: seq<Byte>, c: seq<Byte>, d: seq<Byte>)
    requires a + b == c + d && |a| == |c|
    ensures a == c && b == d
  {
    assert a == (a + b)[..|a|] && b == (a + b)[|a|..];
  }

  lemma WordFits()
    ensures Pow2(8 * 4) == U32
  {
    Pow2Table();
    hide Pow2;
    Pow2Add(8, 8);
    Pow2Add(16, 16);
  }

  lemma PaddedBy(m: seq<Byte>, k: nat)
    requires IsGap(|m|, k)
    ensures var p := m + ([0x80] + Zeros(k)) + BigEndian(8 * |m| % U64, 8);
            IsPadded(m, p) && |p| % BLOCKBYTES == 0
  {
    hide Zeros;
    hide BigEndian;
    var p := m + ([0x80] + Zeros(k)) + BigEndian(8 * |m| % U64, 8);
    assert p == m + [0x80] + Zeros(k) + BigEndian(8 * |m| % U64, 8);
  }

  lemma EightTimes(len: nat)
    ensures len % U64 * 8 % U64 == 8 * len % U64
  {
    var q, r := len / U64, len % U64;
    assert 8 * len == U64 * (8 * q) + 8 * r;
    ModShift(U64, 8 * q, 8 * r);
  }

  /** The number of zeros that the code computes is the gap. */
  lemma PadGap(len: nat, k: nat)
    requires k == (119 - len % BLOCKBYTES) % BLOCKBYTES
    ensures IsGap(len, k)
  {
    var r := len % BLOCKBYTES;
    SameEnd(len, k);
    forall j: nat | j < k
      ensures !EndsBlock(len, j)
    {
      SameEnd(len, j);
    }
  }

  lemma SameEnd(len: nat, k: nat)
    ensures EndsBlock(len, k) <==> (len % BLOCKBYTES + k + 9) % BLOCKBYTES == 0
  {
  }

  lemma GapOnce(len: nat, k: nat, l: nat)
    requires IsGap(len, k) && IsGap(len, l)
    ensures k == l
  {
    hide EndsBlock;
  }

  /** A message has one padded form. */
  lemma PaddedOnce(m: seq<Byte>, p: seq<Byte>, q: seq<Byte>)
    requires IsPadded(m, p) && IsPadded(m, q)
    ensures p == q
  {
    hide IsGap;
    hide Zeros;
    hide BigEndian;
    var k :| IsGap(|m|, k) && p == m + [0x80] + Zeros(k) + BigEndian(8 * |m| % U64, 8);
    var l :| IsGap(|m|, l) && q == m + [0x80] + Zeros(l) + BigEndian(8 * |m| % U64, 8);
    GapOnce(|m|, k, l);
  }

  /**
    The padded form byte by byte: the message, 0x80, at most 63 zeros up to the last 8 bytes of a block,
    and in these the length in bits modulo 2^64, most significant byte first.
  */
  lemma PaddedExact(m: seq<Byte>, p: seq<Byte>)
    ensures IsPadded(m, p) <==>
            && |p| % 64 == 0 && |m| + 9 <= |p| < |m| + 9 + 64
            && p[..|m|] == m && p[|m|] == 0x80
            && (forall i :: |m| < i < |p| - 8 ==> p[i] == 0)
            && forall j :: |p| - 8 <= j < |p| ==> p[j] == 8 * |m| % U64 / Pow2(8 * (|p| - 1 - j)) % 0x100
  {
    hide IsPadded, IsGap, BigEndian, Pow2;
    var size := 8 * |m| % U64;
    if IsPadded(m, p) {
      PaddedShape(m, p);
      SizeBytes(size, p);
    }
    if |p| % 64 == 0 && |m| + 9 <= |p| < |m| + 9 + 64 && p[..|m|] == m && p[|m|] == 0x80 &&
       (forall i :: |m| < i < |p| - 8 ==> p[i] == 0) &&
       forall j :: |p| - 8 <= j < |p| ==> p[j] == size / Pow2(8 * (|p| - 1 - j)) % 0x100 {
      SizeBytes(size, p);
      ShapePadded(m, p);
    }
  }

  lemma SizeBytes(size: nat, p: seq<Byte>)
    requires |p| >= 8
    ensures p[|p| - 8..] == BigEndian(size, 8) <==>
            forall j :: |p| - 8 <= j < |p| ==> p[j] == size / Pow2(8 * (|p| - 1 - j)) % 0x100
  {
    hide BigEndian, Pow2;
    var b := BigEndian(size, 8);
    SameTail(p, b);
    forall j | |p| - 8 <= j < |p|
      ensures p[j] == b[j - (|p| - 8)] <==> p[j] == size / Pow2(8 * (|p| - 1 - j)) % 0x100
    {
      TailByte(size, p, j);
    }
  }

  lemma TailByte(size: nat, p: seq<Byte>, j: nat)
    requires |p| >= 8 && |p| - 8 <= j < |p|
    ensures BigEndian(size, 8)[j - (|p| - 8)] == size / Pow2(8 * (|p| - 1 - j)) % 0x100
  {
    hide BigEndian, Pow2;
    BigEndianAt(size, 8, j - (|p| - 8));
    assert 8 - 1 - (j - (|p| - 8)) == |p| - 1 - j;
  }

  lemma SameTail(p: seq<Byte>, b: seq<Byte>)
    requires |p| >= |b| == 8
    ensures p[|p| - 8..] == b <==> forall j :: |p| - 8 <= j < |p| ==> p[j] == b[j - (|p| - 8)]
  {
    var tail := p[|p| - 8..];
    assert forall j :: |p| - 8 <= j < |p| ==> p[j] == tail[j - (|p| - 8)];
    if forall j :: |p| - 8 <= j < |p| ==> p[j] == b[j - (|p| - 8)] {
      forall i | 0 <= i < 8
        ensures tail[i] == b[i]
      {
        assert p[|p| - 8 + i] == b[i];
      }
    }
  }

  lemma PaddedShape(m: seq<Byte>, p: seq<Byte>)
    requires IsPadded(m, p)
    ensures |p| % 64 == 0 && |m| + 9 <= |p| < |m| + 9 + 64
    ensures p[..|m|] == m && p[|m|] == 0x80 && forall i :: |m| < i < |p| - 8 ==> p[i] == 0
    ensures p[|p| - 8..] == BigEndian(8 * |m| % U64, 8)
  {
    hide IsGap, BigEndian;
    var k :| IsGap(|m|, k) && p == m + [0x80] + Zeros(k) + BigEndian(8 * |m| % U64, 8);
    GapExact(|m|, k);
  }

  lemma ShapePadded(m: seq<Byte>, p: seq<Byte>)
    requires |p| % 64 == 0 && |m| + 9 <= |p| < |m| + 9 + 64
    requires p[..|m|] == m && p[|m|] == 0x80 && forall i :: |m| < i < |p| - 8 ==> p[i] == 0
    requires p[|p| - 8..] == BigEndian(8 * |m| % U64, 8)
    ensures IsPadded(m, p)
  {
    hide IsGap, BigEndian;
    var k := |p| - |m| - 9;
    GapExact(|m|, k);
    Assemble(m, p, k, BigEndian(8 * |m| % U64, 8));
  }

  lemma GapExact(len: nat, k: nat)
    ensures IsGap(len, k) <==> (len + 9 + k) % 64 == 0 && k < 64
  {
    if IsGap(len, k) && k >= 64 {
      assert EndsBlock(len, k - 64);
    }
  }

  lemma Assemble(m: seq<Byte>, p: seq<Byte>, k: nat, size: seq<Byte>)
    requires |p| == |m| + 1 + k + 8 && p[..|m|] == m && p[|m|] == 0x80 && p[|p| - 8..] == size
    requires forall i :: |m| < i < |p| - 8 ==> p[i] == 0
    ensures p == m + [0x80] + Zeros(k) + size
  {
    assert p == p[..|m|] + [p[|m|]] + p[|m| + 1..|p| - 8] + p[|p| - 8..];
    assert p[|m| + 1..|p| - 8] == Zeros(k);
  }
}
