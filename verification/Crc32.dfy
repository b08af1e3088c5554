/** CRC-32 as in section 8 of RFC 1952, bit by bit over the reflected polynomial. */
module Crc32 {
  import opened Bytes

  const WIDTH: nat := 32

  /** A 32-bit register, least significant bit first. */
  type Register = r: seq<bool> | |r| == WIDTH witness Bits(0, WIDTH)

  function Bits(n: nat, w: nat): (bits: seq<bool>)
    ensures |bits| == w
  {
    if w == 0 then [] else [n % 2 == 1] + Bits(n / 2, w - 1)
  }

  function Number(bits: seq<bool>): (n: nat)
    ensures n < Pow2(|bits|)
  {
    if bits == [] then 0 else (if bits[0] then 1 else 0) + 2 * Number(bits[1..])
  }

  function Pow2(w: nat): (p: nat)
    ensures p > 0
  {
    if w == 0 then 1 else 2 * Pow2(w - 1)
  }

  const POLYNOMIAL: Register := Bits(0xEDB88320, WIDTH)
  const ONES: Register := Bits(0xFFFFFFFF, WIDTH)

  function Xor(a: Register, b: Register): Register {
    seq(WIDTH, i requires 0 <= i < WIDTH => a[i] != b[i])
  }

  /** Shift right by one; when a 1 falls out, add the polynomial p. */
  function RoundBy(p: Register, c: Register): Register {
    var shifted: Register := c[1..] + [false];
    if c[0] then Xor(shifted, p) else shifted
  }

  function Rounds(c: Register, n: nat): Register
    decreases n
  {
    if n == 0 then c else Rounds(RoundBy(POLYNOMIAL, c), n - 1)
  }

  /** Feed one byte. */
  function Feed(c: Register, b: byte): Register {
    Rounds(Xor(c, Bits(b, WIDTH)), W8)
  }

  /** `Hasher::update`: feed a chunk. */
  function Update(c: Register, s: Bytes): Register
    decreases |s|
  {
    if s == [] then c else Update(Feed(c, s[0]), s[1..])
  }

  /** `Hasher::finalize`: the checksum value. */
  function Finalize(c: Register): (crc: nat)
    ensures crc < U32
  {
    assert Pow2(32) == U32 by { Pow2Is32(); }
    Number(Xor(c, ONES))
  }

  /** `crc32fast::hash`. */
  function Hash(s: Bytes): (crc: nat)
    ensures crc < U32
  {
    Finalize(Update(ONES, s))
  }

  lemma Pow2Is32()
    ensures Pow2(32) == U32 && Pow2(31) == 0x8000_0000
  {
    assert Pow2(8) == 256;
    assert Pow2(16) == 256 * Pow2(8);
    assert Pow2(24) == 256 * Pow2(16);
    assert Pow2(32) == 256 * Pow2(24);
  }

  lemma {:induction false} TopBit(n: nat, w: nat)
    requires Pow2(w) <= n < Pow2(w + 1)
    ensures Bits(n, w + 1)[w]
  {
    if w > 0 {
      TopBit(n / 2, w - 1);
    }
  }

  lemma {:induction false} NumberInjective(a: seq<bool>, b: seq<bool>)
    requires |a| == |b| && Number(a) == Number(b)
    ensures a == b
  {
    if a != [] {
      NumberInjective(a[1..], b[1..]);
      assert a == [a[0]] + a[1..] && b == [b[0]] + b[1..];
    }
  }

  lemma {:induction false} BitsInjective(m: nat, n: nat, w: nat)
    requires Bits(m, w) == Bits(n, w) && m < Pow2(w) && n < Pow2(w)
    ensures m == n
  {
    if w > 0 {
      assert Bits(m, w)[0] == Bits(n, w)[0];
      assert Bits(m / 2, w - 1) == Bits(m, w)[1..] == Bits(n, w)[1..] == Bits(n / 2, w - 1);
      BitsInjective(m / 2, n / 2, w - 1);
    }
  }

  lemma XorInjective(a: Register, b: Register, c: Register)
    requires Xor(a, c) == Xor(b, c)
    ensures a == b
  {
    forall i | 0 <= i < WIDTH ensures a[i] == b[i] {
      assert Xor(a, c)[i] == Xor(b, c)[i];
    }
  }

  lemma XorInjectiveRight(c: Register, a: Register, b: Register)
    requires Xor(c, a) == Xor(c, b)
    ensures a == b
  {
    forall i | 0 <= i < WIDTH ensures a[i] == b[i] {
      assert Xor(c, a)[i] == Xor(c, b)[i];
    }
  }

  /** When the polynomial has its top bit set, the top bit of a round tells what fell out. */
  lemma RoundInjective(p: Register, a: Register, b: Register)
    requires p[31] && RoundBy(p, a) == RoundBy(p, b)
    ensures a == b
  {
    assert RoundBy(p, a)[31] == a[0] && RoundBy(p, b)[31] == b[0];
    if a[0] {
      XorInjective(a[1..] + [false], b[1..] + [false], p);
    }
    assert a[1..] == (a[1..] + [false])[..31] == (b[1..] + [false])[..31] == b[1..];
    assert a == [a[0]] + a[1..] && b == [b[0]] + b[1..];
  }

  lemma PolynomialTopBit()
    ensures POLYNOMIAL[31]
  {
    Pow2Is32();
    TopBit(0xEDB88320, 31);
  }

  lemma {:induction false} RoundsInjective(a: Register, b: Register, n: nat)
    requires Rounds(a, n) == Rounds(b, n)
    ensures a == b
    decreases n
  {
    hide Bits;
    if n > 0 {
      RoundsInjective(RoundBy(POLYNOMIAL, a), RoundBy(POLYNOMIAL, b), n - 1);
      PolynomialTopBit();
      RoundInjective(POLYNOMIAL, a, b);
    }
  }

  /** Different registers stay different when fed the same byte. */
  lemma FeedInjectiveInState(a: Register, b: Register, x: byte)
    requires Feed(a, x) == Feed(b, x)
    ensures a == b
  {
    RoundsInjective(Xor(a, Bits(x, WIDTH)), Xor(b, Bits(x, WIDTH)), W8);
    XorInjective(a, b, Bits(x, WIDTH));
  }

  /** One register fed different bytes becomes different registers. */
  lemma FeedInjectiveInByte(c: Register, x: byte, y: byte)
    requires Feed(c, x) == Feed(c, y)
    ensures x == y
  {
    RoundsInjective(Xor(c, Bits(x, WIDTH)), Xor(c, Bits(y, WIDTH)), W8);
    XorInjectiveRight(c, Bits(x, WIDTH), Bits(y, WIDTH));
    Pow2Is32();
    BitsInjective(x, y, WIDTH);
  }

  lemma {:induction false} UpdateInjectiveInState(a: Register, b: Register, s: Bytes)
    requires Update(a, s) == Update(b, s)
    ensures a == b
    decreases |s|
  {
    if s != [] {
      UpdateInjectiveInState(Feed(a, s[0]), Feed(b, s[0]), s[1..]);
      FeedInjectiveInState(a, b, s[0]);
    }
  }

  /** Feeding a message in chunks is feeding it whole. */
  lemma {:induction false} UpdateConcat(c: Register, s: Bytes, t: Bytes)
    ensures Update(c, s + t) == Update(Update(c, s), t)
    decreases |s|
  {
    if s == [] {
      assert s + t == t;
    } else {
      assert (s + t)[1..] == s[1..] + t;
      UpdateConcat(Feed(c, s[0]), s[1..], t);
    }
  }

  /** Changing exactly one byte of a message always changes its checksum. */
  lemma SingleByteChangeDetected(pre: Bytes, x: byte, y: byte, post: Bytes)
    requires x != y
    ensures Hash(pre + [x] + post) != Hash(pre + [y] + post)
  {
    if Hash(pre + [x] + post) == Hash(pre + [y] + post) {
      var c := Update(ONES, pre);
      UpdateConcat(ONES, pre + [x], post);
      UpdateConcat(ONES, pre, [x]);
      UpdateConcat(ONES, pre + [y], post);
      UpdateConcat(ONES, pre, [y]);
      assert Update(c, [x]) == Feed(c, x) && Update(c, [y]) == Feed(c, y);
      var a, b := Update(Feed(c, x), post), Update(Feed(c, y), post);
      NumberInjective(Xor(a, ONES), Xor(b, ONES));
      XorInjective(a, b, ONES);
      UpdateInjectiveInState(Feed(c, x), Feed(c, y), post);
      FeedInjectiveInByte(c, x, y);
      assert false;
    }
  }
}
