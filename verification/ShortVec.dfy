/** The variable-length length prefix of the Solana wire format: written by signer/withdraw.js,
    read back by signer/submit.js. */
module ShortVec {
  import opened Arith
  import opened Bytes
  import opened Bits

  /** `buf[i]`: undefined outside the buffer. */
  function At(buf: seq<Byte>, i: int): Option<Byte> {
    if 0 <= i < |buf| then Some(buf[i]) else None
  }

  /** An undefined byte counts as zero in a bit operation. */
  function ByteOrZero(buf: seq<Byte>, i: int): Byte {
    if 0 <= i < |buf| then buf[i] else 0
  }

  /** One turn of the reader: `val |= (b & 0x7f) << shift` on 32 bits, the shift taken modulo 32. */
  function Accumulate(val: nat, b: Byte, shift: nat): nat {
    Or(val, ((b % 128) * Pow2(shift % 32)) % TWO32)
  }

  function ReadBits(buf: seq<Byte>, o: int, val: nat, shift: nat): (r: (nat, int))
    ensures r.1 > o
    decreases |buf| - o
  {
    var b := ByteOrZero(buf, o);
    var val' := Accumulate(val, b, shift);
    if b < 128 then (val', o + 1) else ReadBits(buf, o + 1, val', shift + 7)
  }

  /** The number read, as the signed 32-bit value the bit operations leave, and the next offset. */
  function Read(buf: seq<Byte>, off: int): (r: (int, int))
    ensures r.1 > off
  {
    var (bits, o) := ReadBits(buf, off, 0, 0);
    (ToInt32(bits), o)
  }

  /** `readCompactU16`. */
  method ReadCompactU16(buf: seq<Byte>, off: int) returns (val: int, next: int)
    ensures (val, next) == Read(buf, off)
  {
    var bits: nat := 0;
    var shift: nat := 0;
    var o := off;
    while true
      invariant ReadBits(buf, off, 0, 0) == ReadBits(buf, o, bits, shift)
      decreases |buf| - o
    {
      var b := ByteOrZero(buf, o);
      o := o + 1;
      bits := Accumulate(bits, b, shift);
      if b < 128 { break; }
      shift := shift + 7;
    }
    val, next := ToInt32(bits), o;
  }

  /** The prefix for `n`: seven bits a byte, least significant first, the top bit set on all but the
      last. */
  function Compact(n: nat): (r: seq<Byte>)
    ensures r != []
  {
    if n < 128 then [n] else [n % 128 + 128] + Compact(n / 128)
  }

  /** `compactU16`. */
  method CompactU16(n: nat) returns (out: seq<Byte>)
    requires n < TWO32
    ensures out == Compact(n)
  {
    out := [];
    var v := n;
    while true
      invariant Compact(n) == out + Compact(v)
      decreases v
    {
      var b := v % 128;
      v := v / 128;
      if v != 0 {
        assert out + ([b + 128] + Compact(v)) == (out + [b + 128]) + Compact(v);
        out := out + [b + 128];
      } else {
        out := out + [b];
        break;
      }
    }
  }

  lemma AccumulateFresh(val: nat, b: Byte, shift: nat)
    requires shift < 32 && val < Pow2(shift) && (b % 128) * Pow2(shift) < TWO32
    ensures Accumulate(val, b, shift) == val + (b % 128) * Pow2(shift)
  {
    hide Pow2, Or;
    SmallMod(shift, 32);
    SmallMod((b % 128) * Pow2(shift), TWO32);
    OrDisjoint(val, b % 128, shift);
  }

  lemma SmallMod(x: nat, m: nat)
    requires x < m
    ensures x % m == x
  {
  }

  /** Reading where a prefix was written: `rest` bits of the number are still to come. */
  lemma {:induction false} ReadBitsCompact(buf: seq<Byte>, o: nat, n: nat, post: seq<Byte>, val: nat, shift: nat)
    requires o <= |buf| && buf[o..] == Compact(n) + post
    requires shift < 32 && val < Pow2(shift) && n * Pow2(shift) < TWO31
    ensures ReadBits(buf, o, val, shift) == (val + n * Pow2(shift), o + |Compact(n)|)
    decreases n
  {
    hide ReadBits, Compact, Accumulate, Pow2;
    var p := Pow2(shift);
    FirstByte(buf, o, n, post);
    CompactLength(n);
    ReadStep(buf, o, val, shift);
    if n < 128 {
      AccumulateFresh(val, buf[o], shift);
    } else {
      var q, d := n / 128, n % 128;
      NextSeven(n, p, val);
      NextShift(shift);
      AccumulateFresh(val, buf[o], shift);
      ReadBitsCompact(buf, o + 1, q, post, val + d * p, shift + 7);
    }
  }

  lemma CompactLength(n: nat)
    ensures |Compact(n)| == if n < 128 then 1 else 1 + |Compact(n / 128)|
  {
  }

  lemma ReadStep(buf: seq<Byte>, o: nat, val: nat, shift: nat)
    requires o < |buf|
    ensures ReadBits(buf, o, val, shift)
         == if buf[o] < 128 then (Accumulate(val, buf[o], shift), o + 1)
            else ReadBits(buf, o + 1, Accumulate(val, buf[o], shift), shift + 7)
  {
    hide Accumulate;
  }

  lemma FirstByte(buf: seq<Byte>, o: nat, n: nat, post: seq<Byte>)
    requires o <= |buf| && buf[o..] == Compact(n) + post
    ensures o < |buf| && buf[o] == (if n < 128 then n else n % 128 + 128) && buf[o] % 128 == n % 128
    ensures n >= 128 ==> buf[o + 1..] == Compact(n / 128) + post
  {
    assert |buf[o..]| >= 1 && buf[o] == buf[o..][0];
    assert buf[o + 1..] == buf[o..][1..];
  }

  lemma NextShift(shift: nat)
    requires 128 * Pow2(shift) < TWO31
    ensures shift + 7 < 32 && Pow2(shift + 7) == 128 * Pow2(shift)
  {
    Pow2Values();
    Pow2Add(7, shift);
    if shift + 7 >= 31 { Pow2Monotone(31, shift + 7); }
  }

  /** Seven bits taken off the bottom of the number and the rest moved up by seven. */
  lemma NextSeven(n: nat, p: nat, val: nat)
    requires n >= 128 && val < p && n * p < TWO31
    ensures var q, d := n / 128, n % 128;
      && n * p == d * p + q * (128 * p)
      && d * p < TWO31 && 128 * p < TWO31 && q * (128 * p) < TWO31
      && val + d * p < 128 * p
  {
    var q, d := n / 128, n % 128;
    assert n == 128 * q + d;
    assert (128 * q) * p == q * (128 * p);
    assert (128 * q + d) * p == (128 * q) * p + d * p;
    MulAtLeast(128 * p, q);
    MulMonotone(p, d + 1, 128);
    assert p * (d + 1) == d * p + p;
  }

  /** `readCompactU16` at the offset of a prefix gives the number and the offset just past it, for
      every n < 2^31, whatever stands before and after. */
  lemma ReadCompact(buf: seq<Byte>, o: nat, n: nat, post: seq<Byte>)
    requires o <= |buf| && buf[o..] == Compact(n) + post && n < TWO31
    ensures Read(buf, o) == (n, o + |Compact(n)|)
    ensures o + |Compact(n)| <= |buf| && buf[o + |Compact(n)|..] == post
  {
    hide ReadBits, Compact;
    assert Pow2(0) == 1 && n * Pow2(0) == n;
    ReadBitsCompact(buf, o, n, post, 0, 0);
    DropPrefix(buf, o, Compact(n), post);
  }

  lemma DropPrefix(buf: seq<Byte>, o: nat, c: seq<Byte>, post: seq<Byte>)
    requires o <= |buf| && buf[o..] == c + post
    ensures o + |c| <= |buf| && buf[o + |c|..] == post
  {
    assert |buf[o..]| == |c| + |post|;
    assert buf[o + |c|..] == buf[o..][|c|..];
  }

  lemma ReadInverts(pre: seq<Byte>, n: nat, post: seq<Byte>)
    requires n < TWO31
    ensures Read(pre + Compact(n) + post, |pre|) == (n, |pre| + |Compact(n)|)
  {
    var buf := pre + Compact(n) + post;
    assert buf[|pre|..] == Compact(n) + post;
    ReadCompact(buf, |pre|, n, post);
  }

  /** What is read depends only on the bytes the reader walks over. */
  lemma {:induction false} ReadBitsSame(a: seq<Byte>, b: seq<Byte>, o: int, val: nat, shift: nat)
    requires |a| == |b|
    requires forall i :: 0 <= i < |a| && o <= i < ReadBits(a, o, val, shift).1 ==> a[i] == b[i]
    ensures ReadBits(a, o, val, shift) == ReadBits(b, o, val, shift)
    decreases |a| - o
  {
    if ByteOrZero(a, o) >= 128 {
      ReadBitsSame(a, b, o + 1, Accumulate(val, a[o], shift), shift + 7);
    }
  }

  lemma ReadSame(a: seq<Byte>, b: seq<Byte>, o: int)
    requires |a| == |b|
    requires forall i :: 0 <= i < |a| && o <= i < Read(a, o).1 ==> a[i] == b[i]
    ensures Read(a, o) == Read(b, o)
  {
    ReadBitsSame(a, b, o, 0, 0);
  }
}
