/**
  Numbers as bytes in memory.
*/
module Bytes {
  import opened Arith

  /** The k low bytes of n, least significant first. */
  function LittleEndian(n: nat, k: nat): (s: seq<Byte>)
    ensures |s| == k
  {
    if k == 0 then [] else [n % 0x100] + LittleEndian(n / 0x100, k - 1)
  }

  function FromLittleEndian(s: seq<Byte>): nat
  {
    if s == [] then 0 else s[0] + 0x100 * FromLittleEndian(s[1..])
  }

  lemma {:induction false} LittleEndianBack(n: nat, k: nat)
    requires n < Pow2(8 * k)
    ensures FromLittleEndian(LittleEndian(n, k)) == n
  {
    if k == 0 {
    } else {
      ByteLess(n, k);
      LittleEndianBack(n / 0x100, k - 1);
      assert LittleEndian(n, k)[1..] == LittleEndian(n / 0x100, k - 1);
    }
  }

  lemma ByteLess(n: nat, k: nat)
    requires k > 0 && n < Pow2(8 * k)
    ensures n / 0x100 < Pow2(8 * (k - 1))
  {
    Pow2Table();
    hide Pow2;
    Pow2Add(8, 8 * (k - 1));
  }

  lemma {:induction false} LittleEndianOnly(s: seq<Byte>)
    ensures LittleEndian(FromLittleEndian(s), |s|) == s && FromLittleEndian(s) < Pow2(8 * |s|)
  {
    if s == [] {
    } else {
      LittleEndianOnly(s[1..]);
      MoreBytes(FromLittleEndian(s[1..]), s[0], |s|);
      assert s == [s[0]] + s[1..];
    }
  }

  lemma MoreBytes(v: nat, b: Byte, k: nat)
    requires k > 0 && v < Pow2(8 * (k - 1))
    ensures (b + 0x100 * v) % 0x100 == b && (b + 0x100 * v) / 0x100 == v && b + 0x100 * v < Pow2(8 * k)
  {
    Pow2Table();
    hide Pow2;
    Pow2Add(8, 8 * (k - 1));
  }

  /** Byte i of a number is its value shifted right by 8 i bits, modulo 256. */
  lemma {:induction false} LittleEndianAt(n: nat, k: nat, i: nat)
    requires i < k
    ensures LittleEndian(n, k)[i] == n / Pow2(8 * i) % 0x100
  {
    Pow2Table();
    hide Pow2;
    if i > 0 {
      LittleEndianAt(n / 0x100, k - 1, i - 1);
      ByteUp(n, i - 1);
    }
  }

  lemma ByteUp(n: nat, i: nat)
    ensures n / 0x100 / Pow2(8 * i) == n / Pow2(8 * (i + 1))
  {
    Pow2Table();
    hide Pow2;
    Pow2Add(8, 8 * i);
    DivDiv(n, 0x100, Pow2(8 * i));
  }

  /** The k low bytes of n, most significant first. */
  function BigEndian(n: nat, k: nat): (s: seq<Byte>)
    ensures |s| == k
  {
    if k == 0 then [] else BigEndian(n / 0x100, k - 1) + [n % 0x100]
  }

  /** Here byte i is the value shifted right by 8 (k - 1 - i) bits. */
  lemma {:induction false} BigEndianAt(n: nat, k: nat, i: nat)
    requires i < k
    ensures BigEndian(n, k)[i] == n / Pow2(8 * (k - 1 - i)) % 0x100
  {
    Pow2Table();
    hide Pow2;
    if i < k - 1 {
      BigEndianAt(n / 0x100, k - 1, i);
      ByteUp(n, k - 2 - i);
    }
  }

  /** Numbers that fit are determined by their bytes. */
  lemma {:induction false} BigEndianInjective(m: nat, n: nat, k: nat)
    requires m < Pow2(8 * k) && n < Pow2(8 * k) && BigEndian(m, k) == BigEndian(n, k)
    ensures m == n
  {
    if k == 0 {
    } else {
      ByteLess(m, k);
      ByteLess(n, k);
      var x, y := BigEndian(m / 0x100, k - 1), BigEndian(n / 0x100, k - 1);
      assert BigEndian(m, k)[..k - 1] == x && BigEndian(n, k)[..k - 1] == y;
      assert BigEndian(m, k)[k - 1] == m % 0x100 && BigEndian(n, k)[k - 1] == n % 0x100;
      BigEndianInjective(m / 0x100, n / 0x100, k - 1);
    }
  }

  /** Input taken up to lo, then up to hi. */
  lemma NextSlice(done: seq<Byte>, data: seq<Byte>, lo: nat, hi: nat)
    requires lo <= hi <= |data|
    ensures done + data[..lo] + data[lo..hi] == done + data[..hi]
    ensures data[lo..] == data[lo..|data|] && data[..|data|] == data
    ensures lo == hi ==> data[lo..hi] == []
  {
    assert data[..lo] + data[lo..hi] == data[..hi];
  }

  function Zeros(n: nat): (s: seq<Byte>)
    ensures |s| == n && forall i :: 0 <= i < n ==> s[i] == 0
  {
    seq(n, _ => 0)
  }
}
