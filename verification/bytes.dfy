/** Bytes, 32-bit words, and the bitwise operations the ciphers need. */
module Bytes {

  type Byte = x: int | 0 <= x < 0x100
  type Word32 = x: int | 0 <= x < 0x1_0000_0000

  const WORDS: int := 0x1_0000_0000

  // -------------------------------------------------------------- XOR and OR

  function Pow2(n: nat): nat {
    if n == 0 then 1 else 2 * Pow2(n - 1)
  }

  /** The exclusive or of the lowest n bits of a and b. */
  function XorBits(n: nat, a: nat, b: nat): (r: nat)
    ensures r < Pow2(n)
    decreases n, a, b
  {
    if n == 0 then 0 else (if a % 2 == b % 2 then 0 else 1) + 2 * XorBits(n - 1, a / 2, b / 2)
  }

  /** The inclusive or of the lowest n bits of a and b. */
  function OrBits(n: nat, a: nat, b: nat): (r: nat)
    ensures r < Pow2(n)
    decreases n, a, b
  {
    if n == 0 then 0 else (if a % 2 == 0 && b % 2 == 0 then 0 else 1) + 2 * OrBits(n - 1, a / 2, b / 2)
  }

  lemma ByteBits()
    ensures Pow2(8) == 0x100
  {
    assert Pow2(4) == 16;
  }

  function Xor(a: Byte, b: Byte): Byte {
    ByteBits();
    XorBits(8, a, b)
  }

  function Or(a: Byte, b: Byte): Byte {
    ByteBits();
    OrBits(8, a, b)
  }

  lemma {:induction false} XorBitsTwice(n: nat, a: nat, b: nat)
    requires a < Pow2(n)
    ensures XorBits(n, XorBits(n, a, b), b) == a
  {
    if n > 0 {
      XorBitsTwice(n - 1, a / 2, b / 2);
      var rest := XorBits(n - 1, a / 2, b / 2);
      var mixed := XorBits(n, a, b);
      assert mixed == 2 * rest || mixed == 2 * rest + 1;
      assert mixed / 2 == rest;
    }
  }

  lemma {:induction false} XorBitsZero(n: nat, a: nat, b: nat)
    requires a < Pow2(n) && b < Pow2(n)
    ensures XorBits(n, a, b) == 0 <==> a == b
  {
    if n > 0 {
      XorBitsZero(n - 1, a / 2, b / 2);
    }
  }

  lemma {:induction false} OrBitsZero(n: nat, a: nat, b: nat)
    requires a < Pow2(n) && b < Pow2(n)
    ensures OrBits(n, a, b) == 0 <==> a == 0 && b == 0
  {
    if n > 0 {
      OrBitsZero(n - 1, a / 2, b / 2);
    }
  }

  /** Encrypting twice with the same pad byte gives the byte back. */
  lemma XorInvolution(a: Byte, b: Byte)
    ensures Xor(Xor(a, b), b) == a
  {
    ByteBits();
    XorBitsTwice(8, a, b);
  }

  /** The i-th binary digit of a number. */
  function Bit(x: nat, i: nat): nat
    decreases i, x
  {
    if i == 0 then x % 2 else Bit(x / 2, i - 1)
  }

  lemma {:induction false} XorBitsAt(n: nat, a: nat, b: nat, k: nat)
    requires k < n
    ensures Bit(XorBits(n, a, b), k) == (Bit(a, k) + Bit(b, k)) % 2
  {
    assert XorBits(n, a, b) / 2 == XorBits(n - 1, a / 2, b / 2);
    if k > 0 {
      XorBitsAt(n - 1, a / 2, b / 2, k - 1);
    }
  }

  /** The values of the eight digits of a byte. */
  const DIGITS: seq<nat> := [1, 2, 4, 8, 16, 32, 64, 128]

  lemma Halves(x: nat)
    ensures x / 2 == x / 2 / 1 && x / 4 == x / 2 / 2 && x / 8 == x / 2 / 4 && x / 16 == x / 2 / 8
    ensures x / 32 == x / 2 / 16 && x / 64 == x / 2 / 32 && x / 128 == x / 2 / 64
  {
  }

  lemma {:induction false} BitOfByte(x: Byte, i: nat)
    requires i < 8
    ensures Bit(x, i) == x / DIGITS[i] % 2
    decreases i
  {
    if i > 0 {
      BitOfByte(x / 2, i - 1);
      Halves(x);
      assert i == 1 || i == 2 || i == 3 || i == 4 || i == 5 || i == 6 || i == 7;
    }
  }

  /** Bit by bit, Xor is addition without carry. */
  lemma XorBitByBit(a: Byte, b: Byte, i: nat)
    requires i < 8
    ensures Xor(a, b) / DIGITS[i] % 2 == (a / DIGITS[i] % 2 + b / DIGITS[i] % 2) % 2
  {
    XorBitsAt(8, a, b, i);
    BitOfByte(Xor(a, b), i);
    BitOfByte(a, i);
    BitOfByte(b, i);
  }

  lemma XorZero(a: Byte, b: Byte)
    ensures Xor(a, b) == 0 <==> a == b
  {
    ByteBits();
    XorBitsZero(8, a, b);
  }

  lemma OrZero(a: Byte, b: Byte)
    ensures Or(a, b) == 0 <==> a == 0 && b == 0
  {
    ByteBits();
    OrBitsZero(8, a, b);
  }

  // -------------------------------------------------------- big-endian words

  /** The lowest n bytes of a number, most significant first. */
  function BytesOf(w: nat, n: nat): (b: seq<Byte>)
    ensures |b| == n
    decreases n, w
  {
    if n == 0 then [] else BytesOf(w / 0x100, n - 1) + [w % 0x100]
  }

  /** The four bytes of a word. */
  function Be32(w: Word32): (b: seq<Byte>)
    ensures |b| == 4
  {
    BytesOf(w, 4)
  }

  lemma BytesOfFour(w: Word32)
    ensures Be32(w) == [w / 0x100 / 0x100 / 0x100, w / 0x100 / 0x100 % 0x100, w / 0x100 % 0x100, w % 0x100]
  {
    var w1, w2, w3 := w / 0x100, w / 0x100 / 0x100, w / 0x100 / 0x100 / 0x100;
    assert BytesOf(w3, 1) == [] + [w3 % 0x100];
    assert BytesOf(w2, 2) == BytesOf(w3, 1) + [w2 % 0x100];
    assert BytesOf(w1, 3) == BytesOf(w2, 2) + [w1 % 0x100];
  }

  /** The number that the first n bytes stand for, most significant first. */
  function Joined(b: seq<Byte>, n: nat): nat
    requires n <= |b|
    decreases n, b
  {
    if n == 0 then 0 else Joined(b, n - 1) * 0x100 + b[n - 1]
  }

  lemma JoinedFour(b: seq<Byte>)
    requires |b| == 4
    ensures Joined(b, 4) == b[3] as int + b[2] as int * 0x100 + b[1] as int * 0x1_0000 + b[0] as int * 0x100_0000
  {
    assert Joined(b, 1) == b[0];
    assert Joined(b, 2) == Joined(b, 1) * 0x100 + b[1];
    assert Joined(b, 3) == Joined(b, 2) * 0x100 + b[2];
  }

  function LoadBe32(b: seq<Byte>): Word32
    requires |b| == 4
  {
    JoinedFour(b);
    Joined(b, 4)
  }

  /** Taking the lowest byte off a number. */
  lemma LowByte(high: int, low: Byte)
    ensures (high * 0x100 + low) / 0x100 == high && (high * 0x100 + low) % 0x100 == low
  {
  }

  lemma SplitByte(w: nat)
    ensures w == w / 0x100 * 0x100 + w % 0x100
  {
  }

  lemma LoadStoreBe32(w: Word32)
    ensures LoadBe32(Be32(w)) == w
  {
    BytesOfFour(w);
    JoinedFour(Be32(w));
    SplitByte(w);
    SplitByte(w / 0x100);
    SplitByte(w / 0x100 / 0x100);
  }

  lemma StoreLoadBe32(b: seq<Byte>)
    requires |b| == 4
    ensures Be32(LoadBe32(b)) == b
  {
    JoinedFour(b);
    var w: int := LoadBe32(b);
    var b0: int, b1: int, b2: int := b[0], b[1], b[2];
    LowByte((b0 * 0x100 + b1) * 0x100 + b2, b[3]);
    LowByte(b0 * 0x100 + b1, b[2]);
    LowByte(b0, b[1]);
    BytesOfFour(w);
  }

  /** Writes a word into four consecutive cells, shifting the value right as it goes. */
  method StoreBe32(p: array<Byte>, offset: nat, w: Word32)
    requires offset + 4 <= p.Length
    modifies p
    ensures p[..] == old(p[..offset]) + Be32(w) + old(p[offset + 4..])
  {
    var i: Word32 := w;
    p[offset + 3] := i % 0x100;
    i := i / 0x100;
    p[offset + 2] := i % 0x100;
    i := i / 0x100;
    p[offset + 1] := i % 0x100;
    i := i / 0x100;
    p[offset] := i % 0x100;
    BytesOfFour(w);
  }

  // ------------------------------------------------------ strings as bytes

  /** Strings of 8-bit characters, which is what std::string holds. */
  type Text = s: string | forall c :: c in s ==> c as int < 0x100

  function ToBytes(s: Text): (b: seq<Byte>)
    ensures |b| == |s| && forall i :: 0 <= i < |s| ==> b[i] == s[i] as int
  {
    seq(|s|, i requires 0 <= i < |s| => s[i] as int)
  }

  function FromBytes(b: seq<Byte>): (s: Text)
    ensures |s| == |b| && forall i :: 0 <= i < |b| ==> s[i] as int == b[i]
  {
    seq(|b|, i requires 0 <= i < |b| => b[i] as char)
  }

  lemma TextRoundTrip(s: Text)
    ensures FromBytes(ToBytes(s)) == s
  {
  }

  /** The part of a string that a C string function sees: everything before the first NUL. */
  function CStr(s: string): (c: string)
    ensures c <= s && '\0' !in c
    ensures |c| < |s| ==> s[|c|] == '\0'
    ensures '\0' !in s ==> c == s
  {
    if s == "" || s[0] == '\0' then "" else [s[0]] + CStr(s[1..])
  }

  // ------------------------------------------------- comparison without leaks

  /** Compares two stretches of memory by accumulating the OR of their byte-wise XORs. */
  method LeaklessEquals(a: array<Byte>, aFrom: nat, b: array<Byte>, bFrom: nat, len: nat) returns (equal: bool)
    requires aFrom + len <= a.Length && bFrom + len <= b.Length
    ensures equal == (a[aFrom..aFrom + len] == b[bFrom..bFrom + len])
  {
    var diff: Byte := 0;
    var p, q, left := aFrom, bFrom, len;
    while left > 0
      invariant 0 <= left <= len && p == aFrom + len - left && q == bFrom + len - left
      invariant diff == 0 <==> a[aFrom..p] == b[bFrom..q]
    {
      OrZero(diff, Xor(a[p], b[q]));
      XorZero(a[p], b[q]);
      assert a[aFrom..p + 1] == a[aFrom..p] + [a[p]] && b[bFrom..q + 1] == b[bFrom..q] + [b[q]];
      diff := Or(diff, Xor(a[p], b[q]));
      p, q, left := p + 1, q + 1, left - 1;
    }
    equal := diff == 0;
  }
}
