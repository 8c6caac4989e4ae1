/** Bit strings and their packing into bytes, most significant bit first.
    A bit string is a `string` of '0' and '1' characters, the form the prefix
    table and the decoder's accumulator use in the codec. */
module Bits {
  import opened Types

  predicate IsBitString(s: string) {
    forall i :: 0 <= i < |s| ==> s[i] == '0' || s[i] == '1'
  }

  function Pow2(n: nat): (r: nat)
    ensures r >= 1
  {
    if n == 0 then 1 else 2 * Pow2(n - 1)
  }

  function Zeros(n: nat): (r: string)
    ensures |r| == n && IsBitString(r)
    ensures forall i :: 0 <= i < n ==> r[i] == '0'
  {
    if n == 0 then [] else Zeros(n - 1) + ['0']
  }

  /** The value of a bit string read as a binary numeral (a '1' is a one
      bit, any other character a zero bit, as in encData). */
  function Val(s: string): nat {
    if s == [] then 0
    else 2 * Val(s[..|s| - 1]) + (if s[|s| - 1] == '1' then 1 else 0)
  }

  lemma {:induction false} ValBound(s: string)
    ensures Val(s) < Pow2(|s|)
  {
    if s != [] {
      ValBound(s[..|s| - 1]);
    }
  }

  /** The byte that holds `s` in its high bits and zeros below. */
  function ByteOf(s: string): byte
    requires |s| <= 8
  {
    ValBound(s + Zeros(8 - |s|));
    Pow2Table();
    Val(s + Zeros(8 - |s|)) as byte
  }

  /** The low `n` bits of `x`, most significant first. */
  function BitsOf(x: nat, n: nat): (r: string)
    ensures |r| == n && IsBitString(r)
  {
    if n == 0 then [] else BitsOf(x / 2, n - 1) + [if x % 2 == 1 then '1' else '0']
  }

  /** The eight bits of a byte, most significant first. */
  function ByteBits(b: byte): (r: string)
    ensures |r| == 8 && IsBitString(r)
  {
    BitsOf(b as nat, 8)
  }

  /** Bit number `k` of `x` counted from the least significant end, as
      Go's `(x >> k) & 1`. */
  function BitAt(x: nat, k: nat): nat {
    Shr(x, k) % 2
  }

  /** Go's `x >> k` on a non-negative integer: `k` halvings. */
  function Shr(x: nat, k: nat): nat {
    if k == 0 then x else Shr(x / 2, k - 1)
  }

  /** Packs a bit string into bytes (encData): eight bits per byte, the last
      byte padded with zero bits. */
  function Pack(s: string): (r: seq<byte>)
    ensures |r| == (|s| + 7) / 8
  {
    if |s| == 0 then []
    else if |s| <= 8 then [ByteOf(s)]
    else [ByteOf(s[..8])] + Pack(s[8..])
  }

  /** All bits of a byte sequence, most significant bit of each byte first. */
  function Unpack(bs: seq<byte>): (r: string)
    ensures |r| == 8 * |bs|
  {
    if bs == [] then [] else ByteBits(bs[0]) + Unpack(bs[1..])
  }

  /** Number of zero bits that pad `n` bits to a whole number of bytes. */
  function PadLen(n: nat): nat {
    (8 - n % 8) % 8
  }

  lemma {:induction false} ValZeros(s: string, k: nat)
    ensures Val(s + Zeros(k)) == Val(s) * Pow2(k)
  {
    if k == 0 {
      assert s + Zeros(k) == s;
    } else {
      var t, t1 := s + Zeros(k), s + Zeros(k - 1);
      assert t == t1 + ['0'];
      assert t[..|t| - 1] == t1 && t[|t| - 1] == '0';
      assert Val(t) == 2 * Val(t1);
      ValZeros(s, k - 1);
      Double(Val(s), Pow2(k - 1));
    }
  }

  lemma Double(v: nat, q: nat)
    ensures 2 * (v * q) == v * (2 * q)
  {
  }

  /** Setting the next bit of a partially filled byte (encData's
      `currentByte |= 1 << (7 - bitCount)`, or nothing for a '0') adds its
      weight to the byte. */
  lemma AppendBit(p: string, ch: char)
    requires |p| < 8
    ensures ByteOf(p + [ch]) as int == ByteOf(p) as int + (if ch == '1' then Pow2(7 - |p|) else 0)
  {
    var w := if ch == '1' then Pow2(7 - |p|) else 0;
    ByteOfVal(p + [ch], 7 - |p|);
    ByteOfVal(p, 7 - |p| + 1);
    AppendBitVal(p, ch, 7 - |p|);
    Combine(ByteOf(p + [ch]) as int, ByteOf(p) as int, Val(p + [ch] + Zeros(7 - |p|)), Val(p + Zeros(7 - |p| + 1)), w);
  }

  /** Chains the three equalities AppendBit gathers. */
  lemma Combine(a: int, b: int, c: int, d: int, e: int)
    requires a == c && b == d && c == d + e
    ensures a == b + e
  {
  }

  /** A byte built by ByteOf has the value of its padded bit string. */
  lemma ByteOfVal(s: string, n: nat)
    requires |s| <= 8 && n == 8 - |s|
    ensures ByteOf(s) as int == Val(s + Zeros(n))
  {
  }

  lemma AppendBitVal(p: string, ch: char, k: nat)
    ensures Val(p + [ch] + Zeros(k)) == Val(p + Zeros(k + 1)) + (if ch == '1' then Pow2(k) else 0)
  {
    var q := p + [ch];
    assert q[..|q| - 1] == p;
    var v, b, w := Val(p), (if ch == '1' then 1 else 0), Pow2(k);
    assert Val(q) == 2 * v + b;
    ValZeros(q, k);
    ValZeros(p, k + 1);
    assert Pow2(k + 1) == 2 * w;
    Spread(v, b, w);
  }

  lemma Spread(v: nat, b: nat, w: nat)
    ensures (2 * v + b) * w == v * (2 * w) + b * w
  {
  }

  lemma {:induction false} BitsOfVal(s: string)
    requires IsBitString(s)
    ensures BitsOf(Val(s), |s|) == s
  {
    if s != [] {
      var f := s[..|s| - 1];
      assert IsBitString(f);
      BitsOfVal(f);
      var v := Val(s);
      assert v == 2 * Val(f) + (if s[|s| - 1] == '1' then 1 else 0);
      assert v / 2 == Val(f);
    }
  }

  /** Unpacking a byte built from at most eight bits gives those bits back,
      followed by the zero padding. */
  lemma ByteBitsOf(s: string)
    requires IsBitString(s) && |s| <= 8
    ensures ByteBits(ByteOf(s)) == s + Zeros(8 - |s|)
  {
    var t := s + Zeros(8 - |s|);
    assert IsBitString(t);
    BitsOfVal(t);
    assert ByteOf(s) as nat == Val(t);
  }

  /** `BitAt` reads the same bit as `BitsOf`, counted from the other end. */
  lemma {:induction false} BitAtBitsOf(x: nat, n: nat, k: nat)
    requires k < n
    ensures BitsOf(x, n)[n - 1 - k] == if BitAt(x, k) == 1 then '1' else '0'
  {
    if k > 0 {
      BitAtBitsOf(x / 2, n - 1, k - 1);
    }
  }

  /** Packing then unpacking gives the bits back, padded with zeros to a
      whole byte. */
  lemma {:induction false} UnpackPack(s: string)
    requires IsBitString(s)
    ensures Unpack(Pack(s)) == s + Zeros(PadLen(|s|))
  {
    if |s| == 0 {
      assert s + Zeros(0) == s;
    } else if |s| <= 8 {
      UnpackPackByte(s);
    } else {
      BitStringSplit(s, 8);
      UnpackPack(s[8..]);
      UnpackPackStep(s);
    }
  }

  lemma UnpackPackByte(s: string)
    requires IsBitString(s) && 0 < |s| <= 8
    ensures Unpack(Pack(s)) == s + Zeros(PadLen(|s|))
  {
    var x := ByteOf(s);
    assert Pack(s) == [x];
    assert Unpack([x]) == ByteBits(x) by {
      UnpackCons(x, []);
      assert [x] + [] == [x];
    }
    ByteBitsOf(s);
    PadLenByte(|s|);
  }

  lemma PadLenByte(n: nat)
    requires 0 < n <= 8
    ensures PadLen(n) == 8 - n
  {
  }

  lemma UnpackPackStep(s: string)
    requires IsBitString(s) && |s| > 8
    requires Unpack(Pack(s[8..])) == s[8..] + Zeros(PadLen(|s[8..]|))
    ensures Unpack(Pack(s)) == s + Zeros(PadLen(|s|))
  {
    var a, b := s[..8], s[8..];
    BitStringSplit(s, 8);
    UnpackPackHead(s, a, b);
    ByteBitsOf(a);
    assert a + Zeros(0) == a;
    PadLenStep(|b|);
    assert s == a + b;
    assert a + (b + Zeros(PadLen(|b|))) == s + Zeros(PadLen(|s|));
  }

  lemma UnpackPackHead(s: string, a: string, b: string)
    requires |s| > 8 && a == s[..8] && b == s[8..]
    ensures Unpack(Pack(s)) == ByteBits(ByteOf(a)) + Unpack(Pack(b))
  {
    assert Pack(s) == [ByteOf(a)] + Pack(b);
    UnpackCons(ByteOf(a), Pack(b));
  }

  lemma PadLenStep(n: nat)
    ensures PadLen(n + 8) == PadLen(n)
  {
    assert (n + 8) % 8 == n % 8;
  }

  lemma BitStringSplit(s: string, k: nat)
    requires IsBitString(s) && k <= |s|
    ensures IsBitString(s[..k]) && IsBitString(s[k..])
  {
    assert forall i :: 0 <= i < k ==> s[..k][i] == s[i];
    assert forall i :: 0 <= i < |s| - k ==> s[k..][i] == s[k + i];
  }

  lemma UnpackCons(b: byte, rest: seq<byte>)
    ensures Unpack([b] + rest) == ByteBits(b) + Unpack(rest)
  {
    var r := [b] + rest;
    assert r[0] == b && r[1..] == rest;
  }

  /** Packing distributes over concatenation at a byte boundary. */
  lemma {:induction false} PackAppend(a: string, b: string)
    requires |a| % 8 == 0
    ensures Pack(a + b) == Pack(a) + Pack(b)
  {
    if |a| > 0 {
      var s := a + b;
      assert s[..8] == a[..8];
      assert s[8..] == a[8..] + b;
      if |a| == 8 {
        assert a[..8] == a;
        if |b| > 0 {
          assert s[8..] == b;
        } else {
          assert s == a;
        }
      } else {
        PackAppend(a[8..], b);
        assert Pack(a) == [ByteOf(a[..8])] + Pack(a[8..]);
        assert Pack(s) == [ByteOf(s[..8])] + Pack(s[8..]);
      }
    } else {
      assert a + b == b;
    }
  }

  /** Go's `((x >> k) & 1) + '0'`: bit `k` of `x`, counted from the least
      significant end, as the character '0' or '1'. */
  function BitChar(x: byte, k: nat): char {
    if BitAt(x as nat, k) == 1 then '1' else '0'
  }

  /** Bit `k` of a byte, counted from the least significant end, is
      position `7 - k` of its bit string. */
  lemma ByteBitAt(b: byte, k: nat)
    requires k < 8
    ensures ByteBits(b)[7 - k] == BitChar(b, k)
  {
    BitAtBitsOf(b as nat, 8, k);
  }

  /** Position `8 * i + (7 - k)` of an unpacked byte sequence is bit `k` of
      byte `i`, counted from the least significant end. */
  lemma {:induction false} UnpackBit(bs: seq<byte>, i: nat, k: nat)
    requires i < |bs| && k < 8
    ensures Unpack(bs)[8 * i + (7 - k)] == BitChar(bs[i], k)
  {
    if i == 0 {
      ByteBitAt(bs[0], k);
    } else {
      UnpackBit(bs[1..], i - 1, k);
      assert bs[1..][i - 1] == bs[i];
    }
  }

  /** Go's `x | y` on non-negative integers, one bit at a time from the
      least significant end. */
  function Or(x: nat, y: nat): nat
    decreases x + y
  {
    if x == 0 && y == 0 then 0
    else 2 * Or(x / 2, y / 2) + (if x % 2 == 1 || y % 2 == 1 then 1 else 0)
  }

  /** Go's `x | (1 << k)` on a byte. */
  function SetBit(x: byte, k: nat): (r: byte)
    requires k < 8
    ensures r as int >= x as int
  {
    Pow2Less(k, 8);
    Pow2Table();
    OrBound(x as nat, Pow2(k), 8);
    OrAbove(x as nat, Pow2(k));
    Or(x as nat, Pow2(k)) as byte
  }

  lemma Pow2Table()
    ensures Pow2(0) == 1 && Pow2(1) == 2 && Pow2(2) == 4 && Pow2(3) == 8 && Pow2(4) == 16
    ensures Pow2(5) == 32 && Pow2(6) == 64 && Pow2(7) == 128 && Pow2(8) == 256
  {
  }

  lemma {:induction false} Pow2Less(k: nat, n: nat)
    requires k < n
    ensures Pow2(k) < Pow2(n)
    decreases n
  {
    if n > k + 1 {
      Pow2Less(k, n - 1);
    }
  }

  /** OR-ing two numbers below 2^n stays below 2^n. */
  lemma {:induction false} OrBound(x: nat, y: nat, n: nat)
    requires x < Pow2(n) && y < Pow2(n)
    ensures Or(x, y) < Pow2(n)
    decreases n
  {
    if n > 0 && (x != 0 || y != 0) {
      OrBound(x / 2, y / 2, n - 1);
    }
  }

  /** OR-ing never clears a bit, so it never makes a number smaller. */
  lemma {:induction false} OrAbove(x: nat, y: nat)
    ensures Or(x, y) >= x
    decreases x + y
  {
    if x != 0 || y != 0 {
      OrAbove(x / 2, y / 2);
    }
  }

  lemma {:induction false} OrZero(x: nat)
    ensures Or(x, 0) == x
    decreases x
  {
    if x != 0 {
      OrZero(x / 2);
    }
  }

  /** Setting bit `k` of a number whose bits 0..k are clear adds 2^k. */
  lemma {:induction false} OrPow2(x: nat, v: nat, k: nat)
    requires x == v * Pow2(k + 1)
    ensures Or(x, Pow2(k)) == x + Pow2(k)
    decreases k
  {
    var w := v * Pow2(k);
    assert x == 2 * w by {
      Double(v, Pow2(k));
    }
    if k == 0 {
      OrZero(w);
    } else {
      assert Pow2(k) == 2 * Pow2(k - 1);
      OrPow2(w, v, k - 1);
    }
  }

  /** encData's per-bit update: OR-ing in a '1' at position `|p|` (from the
      most significant end) of the byte holding `p`, or leaving it for any
      other character, gives the byte holding `p + [ch]`. */
  lemma SetNextBit(p: string, ch: char, x: byte)
    requires |p| < 8 && x == ByteOf(p)
    ensures ch == '1' ==> SetBit(x, 7 - |p|) == ByteOf(p + [ch])
    ensures ch != '1' ==> x == ByteOf(p + [ch])
  {
    AppendBit(p, ch);
    if ch == '1' {
      ByteOfVal(p, 7 - |p| + 1);
      ValZeros(p, 7 - |p| + 1);
      OrPow2(x as nat, Val(p), 7 - |p|);
    }
  }
}
