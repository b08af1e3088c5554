/** What the checksum is: the remainder of a division of polynomials over GF(2). */
module CrcPolynomial {
  import opened Bytes
  import opened Crc32

  /** A polynomial with coefficients 0 and 1, as the set of its exponents. */
  type Poly = set<nat>

  /** x^32 + x^26 + x^23 + x^22 + x^16 + x^12 + x^11 + x^10 + x^8 + x^7 + x^5 + x^4 + x^2 + x + 1. */
  const GENERATOR: Poly := {32, 26, 23, 22, 16, 12, 11, 10, 8, 7, 5, 4, 2, 1, 0}

  function Add(a: Poly, b: Poly): Poly {
    (a - b) + (b - a)
  }

  /** Multiplication by x^k. */
  function Shift(a: Poly, k: nat): Poly {
    set e | e in a :: e + k
  }

  ghost predicate IsLargest(m: nat, q: Poly) {
    m in q && forall k <- q :: k <= m
  }

  lemma LargestExists(q: Poly)
    requires q != {}
    ensures exists m :: IsLargest(m, q)
  {
    var x :| x in q;
    if q == {x} {
      assert IsLargest(x, q);
    } else {
      LargestExists(q - {x});
      var m :| IsLargest(m, q - {x});
      var larger := if x > m then x else m;
      assert forall k <- q :: k == x || k in q - {x};
      assert IsLargest(larger, q);
    }
  }

  ghost function Largest(q: Poly): (m: nat)
    requires q != {}
    ensures IsLargest(m, q)
  {
    LargestExists(q);
    var m :| IsLargest(m, q);
    m
  }

  /** The product of two polynomials. */
  ghost function Times(g: Poly, q: Poly): Poly
    decreases |q|
  {
    if q == {} then {} else
      var m := Largest(q);
      Add(Shift(g, m), Times(g, q - {m}))
  }

  /** Equal up to a multiple of the generator. */
  ghost predicate Congruent(a: Poly, b: Poly) {
    exists q :: Add(a, b) == Times(GENERATOR, q)
  }

  // -- Products ---------------------------------------------------------------

  lemma AddCommutes(a: Poly, b: Poly)
    ensures Add(a, b) == Add(b, a)
  {
  }

  lemma AddAssociates(a: Poly, b: Poly, c: Poly)
    ensures Add(Add(a, b), c) == Add(a, Add(b, c))
  {
  }

  lemma AddTwice(a: Poly, b: Poly)
    ensures Add(Add(a, b), b) == a && Add(a, {}) == a
  {
  }

  lemma {:induction false} TimesInsert(g: Poly, q: Poly, k: nat)
    requires k !in q
    ensures Times(g, q + {k}) == Add(Times(g, q), Shift(g, k))
    decreases |q|
  {
    hide Shift, Add;
    var m := Largest(q + {k});
    if m == k {
      assert q + {k} - {k} == q;
      AddCommutes(Shift(g, k), Times(g, q));
    } else {
      assert Largest(q) == m;
      TimesInsert(g, q - {m}, k);
      assert q + {k} - {m} == q - {m} + {k};
      AddAssociates(Shift(g, m), Times(g, q - {m}), Shift(g, k));
    }
  }

  /** Adding one power to a factor, or taking it out, adds the other factor once, shifted. */
  lemma TimesToggle(g: Poly, q: Poly, k: nat)
    ensures Times(g, Add(q, {k})) == Add(Times(g, q), Shift(g, k))
  {
    hide Shift, Times;
    if k in q {
      TimesInsert(g, q - {k}, k);
      assert q - {k} + {k} == q && Add(q, {k}) == q - {k};
      AddTwice(Times(g, q - {k}), Shift(g, k));
    } else {
      TimesInsert(g, q, k);
      assert Add(q, {k}) == q + {k};
    }
  }

  lemma {:induction false} TimesAdd(g: Poly, p: Poly, q: Poly)
    ensures Times(g, Add(p, q)) == Add(Times(g, p), Times(g, q))
    decreases |q|
  {
    hide Shift, Add;
    if q == {} {
      AddTwice(p, {});
      AddTwice(Times(g, p), {});
    } else {
      var m := Largest(q);
      TimesAdd(g, p, q - {m});
      TimesToggle(g, Add(p, q - {m}), m);
      AddLast(p, q, m);
      AddAssociates(Times(g, p), Times(g, q - {m}), Shift(g, m));
      AddCommutes(Times(g, q - {m}), Shift(g, m));
    }
  }

  lemma AddLast(p: Poly, q: Poly, m: nat)
    requires m in q
    ensures Add(Add(p, q - {m}), {m}) == Add(p, q)
  {
  }

  lemma ShiftAdd(a: Poly, b: Poly, k: nat)
    ensures Shift(Add(a, b), k) == Add(Shift(a, k), Shift(b, k))
  {
    forall e ensures e in Shift(Add(a, b), k) <==> e in Add(Shift(a, k), Shift(b, k)) {
      ShiftHas(Add(a, b), k, e);
      ShiftHas(a, k, e);
      ShiftHas(b, k, e);
    }
  }

  lemma ShiftHas(a: Poly, k: nat, e: nat)
    ensures e in Shift(a, k) <==> e >= k && e - k in a
  {
    if e >= k && e - k in a {
      assert e - k + k == e;
    }
  }

  lemma ShiftShift(a: Poly, j: nat, k: nat)
    ensures Shift(Shift(a, j), k) == Shift(a, j + k)
  {
    forall e: nat ensures e in Shift(Shift(a, j), k) <==> e in Shift(a, j + k) {
      ShiftHas(Shift(a, j), k, e);
      ShiftHas(a, j + k, e);
      if e >= k {
        ShiftHas(a, j, e - k);
      }
    }
  }

  lemma ShiftInsert(q: Poly, m: nat, k: nat)
    requires m in q
    ensures m + k !in Shift(q - {m}, k) && Shift(q - {m}, k) + {m + k} == Shift(q, k)
  {
    forall e: nat ensures e in Shift(q - {m}, k) + {m + k} <==> e in Shift(q, k) {
      ShiftHas(q - {m}, k, e);
      ShiftHas(q, k, e);
    }
  }

  lemma {:induction false} ShiftTimes(g: Poly, q: Poly, k: nat)
    ensures Shift(Times(g, q), k) == Times(g, Shift(q, k))
    decreases |q|
  {
    if q == {} {
      assert Shift({}, k) == {};
    } else {
      hide Shift, Add;
      var m := Largest(q);
      ShiftTimes(g, q - {m}, k);
      ShiftAdd(Shift(g, m), Times(g, q - {m}), k);
      ShiftShift(g, m, k);
      ShiftInsert(q, m, k);
      TimesInsert(g, Shift(q - {m}, k), m + k);
      AddCommutes(Shift(g, m + k), Times(g, Shift(q - {m}, k)));
    }
  }

  // -- Congruence -------------------------------------------------------------

  lemma CongruentSelf(a: Poly)
    ensures Congruent(a, a)
  {
    assert Add(a, a) == Times(GENERATOR, {});
  }

  lemma CongruentTransitive(a: Poly, b: Poly, c: Poly)
    requires Congruent(a, b) && Congruent(b, c)
    ensures Congruent(a, c)
  {
    var p :| Add(a, b) == Times(GENERATOR, p);
    var q :| Add(b, c) == Times(GENERATOR, q);
    TimesAdd(GENERATOR, p, q);
    assert Add(Add(a, b), Add(b, c)) == Add(a, c);
    assert Add(a, c) == Times(GENERATOR, Add(p, q));
  }

  lemma CongruentSymmetric(a: Poly, b: Poly)
    requires Congruent(a, b)
    ensures Congruent(b, a)
  {
    AddCommutes(a, b);
  }

  lemma CongruentAdd(a: Poly, b: Poly, c: Poly)
    requires Congruent(a, b)
    ensures Congruent(Add(a, c), Add(b, c))
  {
    var q :| Add(a, b) == Times(GENERATOR, q);
    assert Add(Add(a, c), Add(b, c)) == Times(GENERATOR, q);
  }

  lemma CongruentShift(a: Poly, b: Poly, k: nat)
    requires Congruent(a, b)
    ensures Congruent(Shift(a, k), Shift(b, k))
  {
    hide Shift;
    var q :| Add(a, b) == Times(GENERATOR, q);
    ShiftAdd(a, b, k);
    ShiftTimes(GENERATOR, q, k);
    assert Add(Shift(a, k), Shift(b, k)) == Times(GENERATOR, Shift(q, k));
  }

  ghost predicate Below(a: Poly, d: nat) {
    forall e <- a :: e < d
  }

  lemma ShiftedDegree(m: nat)
    ensures m + 32 in Shift(GENERATOR, m) && Below(Shift(GENERATOR, m), m + 33)
  {
    ShiftHas(GENERATOR, m, m + 32);
    assert Below(GENERATOR, 33);
  }

  lemma AddDegree(a: Poly, b: Poly, d: nat)
    requires d in a && Below(a, d + 1) && Below(b, d)
    ensures d in Add(a, b) && Below(Add(a, b), d + 1)
  {
  }

  /** A multiple of the generator other than zero has degree 32 or more. */
  lemma {:induction false} TimesDegree(q: Poly)
    requires q != {}
    ensures Largest(q) + 32 in Times(GENERATOR, q) && Below(Times(GENERATOR, q), Largest(q) + 33)
    decreases |q|
  {
    hide GENERATOR, Shift, Add;
    var m := Largest(q);
    ShiftedDegree(m);
    if q - {m} != {} {
      TimesDegree(q - {m});
    }
    assert Below(Times(GENERATOR, q - {m}), m + 32);
    AddDegree(Shift(GENERATOR, m), Times(GENERATOR, q - {m}), m + 32);
  }

  /** So there is only one remainder of degree below 32. */
  lemma RemainderUnique(a: Poly, b: Poly)
    requires Below(a, 32) && Below(b, 32) && Congruent(a, b)
    ensures a == b
  {
    var q :| Add(a, b) == Times(GENERATOR, q);
    if q != {} {
      TimesDegree(q);
      assert false;
    }
    forall e ensures e in a <==> e in b {
      assert e !in Add(a, b);
    }
  }

  // -- The register -----------------------------------------------------------

  /** In the reflected register, bit i is the coefficient of x^(31 - i). */
  function Coefficients(c: Register): Poly {
    set i | 0 <= i < 32 && c[i] :: 31 - i
  }

  lemma HasCoefficient(c: Register, e: nat)
    ensures e in Coefficients(c) <==> e < 32 && c[31 - e]
  {
    if e < 32 && c[31 - e] {
      assert 31 - (31 - e) == e;
    }
  }

  lemma XorIsAdd(a: Register, b: Register)
    ensures Coefficients(Xor(a, b)) == Add(Coefficients(a), Coefficients(b))
  {
    hide Coefficients;
    forall e: nat ensures e in Coefficients(Xor(a, b)) <==> e in Add(Coefficients(a), Coefficients(b)) {
      HasCoefficient(a, e);
      HasCoefficient(b, e);
      HasCoefficient(Xor(a, b), e);
    }
  }

  /** Bit i of a number. */
  predicate HasBit(n: nat, i: nat) {
    n / Pow2(i) % 2 == 1
  }

  lemma {:induction false} BitsAt(n: nat, w: nat, i: nat)
    requires i < w
    ensures Bits(n, w)[i] <==> HasBit(n, i)
  {
    if i > 0 {
      BitsAt(n / 2, w - 1, i - 1);
      Halve(n, Pow2(i - 1));
    }
  }

  lemma Halve(n: nat, p: nat)
    requires p > 0
    ensures n / (2 * p) == n / 2 / p
  {
    var q, r := n / 2 / p, n / 2 % p;
    assert n == (2 * p) * q + (n % 2 + 2 * r);
    DivModUnique(n, 2 * p, q, n % 2 + 2 * r);
  }

  lemma BitsFirst(n: nat, w: nat)
    ensures Bits(n, w + 1) == [n % 2 == 1] + Bits(n / 2, w)
  {
  }

  lemma BitsNibble(n: nat, w: nat)
    ensures Bits(n, w + 4) == [n % 2 == 1, n / 2 % 2 == 1, n / 4 % 2 == 1, n / 8 % 2 == 1] + Bits(n / 16, w)
  {
    hide Bits;
    BitsFirst(n, w + 3);
    BitsFirst(n / 2, w + 2);
    BitsFirst(n / 4, w + 1);
    BitsFirst(n / 8, w);
  }

  /** The upper half of a register. */
  lemma UpperBits(n: nat, i: nat)
    requires i < 16
    ensures Bits(n, WIDTH)[16 + i] == Bits(n / 0x1_0000, 16)[i]
  {
    hide Bits;
    BitsNibble(n, 28);
    BitsNibble(n / 0x10, 24);
    BitsNibble(n / 0x100, 20);
    BitsNibble(n / 0x1000, 16);
  }

  lemma LowPolynomial(i: nat)
    requires i < 16
    ensures POLYNOMIAL[i] <==> 31 - i in GENERATOR
  {
    hide Bits;
    BitsNibble(0xEDB88320, 28);
    BitsNibble(0xEDB8832, 24);
    BitsNibble(0xEDB883, 20);
    BitsNibble(0xEDB88, 16);
  }

  lemma HighPolynomial(i: nat)
    requires i < 16
    ensures POLYNOMIAL[16 + i] <==> 15 - i in GENERATOR
  {
    hide Bits;
    UpperBits(0xEDB88320, i);
    BitsNibble(0xEDB8, 12);
    BitsNibble(0xEDB, 8);
    BitsNibble(0xED, 4);
    BitsNibble(0xE, 0);
  }

  /** The register's constant is the generator without its highest power. */
  lemma PolynomialCoefficients(e: nat)
    requires e < 32
    ensures POLYNOMIAL[31 - e] <==> e in GENERATOR
  {
    hide Bits, GENERATOR;
    if e >= 16 {
      LowPolynomial(31 - e);
    } else {
      HighPolynomial(15 - e);
    }
  }

  /** One round multiplies by x and, if that reaches x^32, subtracts the generator. */
  lemma RoundIsTimesX(c: Register)
    ensures Coefficients(RoundBy(POLYNOMIAL, c)) == Add(Shift(Coefficients(c), 1), if c[0] then GENERATOR else {})
  {
    hide Coefficients, Shift, Bits;
    var r := RoundBy(POLYNOMIAL, c);
    var g: Poly := if c[0] then GENERATOR else {};
    forall e: nat ensures e in Coefficients(r) <==> e in Add(Shift(Coefficients(c), 1), g) {
      HasCoefficient(r, e);
      ShiftHas(Coefficients(c), 1, e);
      if e > 0 {
        HasCoefficient(c, e - 1);
      }
      if e < 32 {
        PolynomialCoefficients(e);
      }
    }
  }

  lemma TimesOne(g: Poly)
    ensures Times(g, {0}) == g && Times(g, {}) == {}
  {
    hide Add;
    assert Largest({0}) == 0 && {0} - {0} == {};
    assert Shift(g, 0) == g;
    AddTwice(g, {});
  }

  lemma RoundCongruent(c: Register)
    ensures Congruent(Coefficients(RoundBy(POLYNOMIAL, c)), Shift(Coefficients(c), 1))
  {
    hide Coefficients, Shift, Times, RoundBy, Bits;
    RoundIsTimesX(c);
    TimesOne(GENERATOR);
    var a, g: Poly := Shift(Coefficients(c), 1), if c[0] then GENERATOR else {};
    assert Add(Add(a, g), a) == g;
  }

  lemma {:induction false} RoundsCongruent(c: Register, n: nat)
    ensures Congruent(Coefficients(Rounds(c, n)), Shift(Coefficients(c), n))
    decreases n
  {
    hide Coefficients, Shift, Congruent, RoundBy, Bits;
    if n == 0 {
      ShiftZero(Coefficients(c));
      CongruentSelf(Coefficients(c));
    } else {
      var r := RoundBy(POLYNOMIAL, c);
      RoundCongruent(c);
      RoundsCongruent(r, n - 1);
      CongruentShift(Coefficients(r), Shift(Coefficients(c), 1), n - 1);
      ShiftShift(Coefficients(c), 1, n - 1);
      CongruentTransitive(Coefficients(Rounds(r, n - 1)), Shift(Coefficients(r), n - 1), Shift(Coefficients(c), n));
    }
  }

  lemma ShiftZero(a: Poly)
    ensures Shift(a, 0) == a
  {
  }

  // -- Messages ---------------------------------------------------------------

  /** A message as a polynomial: its bits in the order of transmission, the low bit of
      each byte first, are the coefficients from the highest power down. */
  function Message(s: Bytes): Poly {
    set i | 0 <= i < 8 * |s| && HasBit(s[i / 8], i % 8) :: 8 * |s| - 1 - i
  }

  lemma HasMessageBit(s: Bytes, e: nat)
    ensures e in Message(s) <==> e < 8 * |s| && var i := 8 * |s| - 1 - e; HasBit(s[i / 8], i % 8)
  {
    hide HasBit;
    if e < 8 * |s| {
      var i := 8 * |s| - 1 - e;
      assert 8 * |s| - 1 - i == e;
    }
  }

  lemma MessageFirst(b: byte, s: Bytes)
    ensures Message([b] + s) == Add(Shift(Message([b]), 8 * |s|), Message(s))
  {
    hide Message, Shift, HasBit;
    var m := [b] + s;
    forall e: nat ensures e in Message(m) <==> e in Add(Shift(Message([b]), 8 * |s|), Message(s)) {
      HasMessageBit(m, e);
      HasMessageBit(s, e);
      ShiftHas(Message([b]), 8 * |s|, e);
      if e >= 8 * |s| {
        HasMessageBit([b], e - 8 * |s|);
      } else {
        var i := 8 * |m| - 1 - e;
        assert m[i / 8] == s[i / 8 - 1] && (i - 8) / 8 == i / 8 - 1 && (i - 8) % 8 == i % 8;
      }
    }
  }

  lemma ByteBit(b: byte, e: nat)
    ensures e in Message([b]) <==> e < 8 && HasBit(b, 7 - e)
  {
    hide Message, HasBit;
    HasMessageBit([b], e);
    if e < 8 {
      assert (7 - e) / 8 == 0 && (7 - e) % 8 == 7 - e;
    }
  }

  /** A byte goes into the low bits of the register, that is into the highest powers. */
  lemma ByteCoefficients(b: byte)
    ensures Coefficients(Bits(b, WIDTH)) == Shift(Message([b]), 24)
  {
    hide Message, Shift, Coefficients, Bits, HasBit;
    var c := Bits(b, WIDTH);
    forall e: nat ensures e in Coefficients(c) <==> e in Shift(Message([b]), 24) {
      HasCoefficient(c, e);
      ShiftHas(Message([b]), 24, e);
      if e >= 32 {
        ByteBit(b, e - 24);
      } else {
        BitsAt(b, WIDTH, 31 - e);
        if e >= 24 {
          ByteBit(b, e - 24);
        } else {
          HighBit(b, 31 - e);
        }
      }
    }
  }

  lemma HighBit(b: byte, i: nat)
    requires i >= 8
    ensures !HasBit(b, i)
  {
    Pow2Above(i);
    assert b / Pow2(i) == 0 by { DivModUnique(b, Pow2(i), 0, b); }
  }

  lemma {:induction false} Pow2Above(i: nat)
    requires i >= 8
    ensures Pow2(i) >= 256
  {
    if i > 8 {
      Pow2Above(i - 1);
    } else {
      assert Pow2(8) == 256;
    }
  }

  lemma FeedCongruent(c: Register, b: byte)
    ensures Congruent(Coefficients(Feed(c, b)), Add(Shift(Coefficients(c), 8), Shift(Message([b]), 32)))
  {
    hide Coefficients, Shift, Congruent, Bits, Message, Rounds, Add, Xor;
    var x := Bits(b, WIDTH);
    RoundsCongruent(Xor(c, x), W8);
    XorIsAdd(c, x);
    ByteCoefficients(b);
    ShiftAdd(Coefficients(c), Coefficients(x), 8);
    ShiftShift(Message([b]), 24, 8);
  }

  /** Feeding a message leaves the remainder of register times x^(8n) plus message times
      x^32, for a message of n bytes. */
  lemma {:induction false} UpdateCongruent(c: Register, s: Bytes)
    ensures Congruent(Coefficients(Update(c, s)), Add(Shift(Coefficients(c), 8 * |s|), Shift(Message(s), 32)))
    decreases |s|
  {
    hide Coefficients, Shift, Congruent, Message, Feed, Add;
    if s == [] {
      ShiftZero(Coefficients(c));
      EmptyMessage();
      AddTwice(Coefficients(c), {});
      CongruentSelf(Coefficients(c));
    } else {
      var b, rest, n := s[0], s[1..], 8 * (|s| - 1);
      var f := Feed(c, b);
      UpdateCongruent(f, rest);
      FeedCongruent(c, b);
      var fed := Add(Shift(Coefficients(c), 8), Shift(Message([b]), 32));
      CongruentShift(Coefficients(f), fed, n);
      CongruentAdd(Shift(Coefficients(f), n), Shift(fed, n), Shift(Message(rest), 32));
      ShiftAdd(Shift(Coefficients(c), 8), Shift(Message([b]), 32), n);
      ShiftShift(Coefficients(c), 8, n);
      ShiftShift(Message([b]), 32, n);
      AddAssociates(Shift(Coefficients(c), 8 + n), Shift(Message([b]), 32 + n), Shift(Message(rest), 32));
      MessageShifted(b, rest, n);
      assert [b] + rest == s;
      CongruentTransitive(Coefficients(Update(c, s)),
                          Add(Shift(Coefficients(f), n), Shift(Message(rest), 32)),
                          Add(Shift(fed, n), Shift(Message(rest), 32)));
    }
  }

  lemma EmptyMessage()
    ensures Message([]) == {} && Shift({}, 32) == {}
  {
  }

  lemma MessageShifted(b: byte, rest: Bytes, n: nat)
    requires n == 8 * |rest|
    ensures Add(Shift(Message([b]), 32 + n), Shift(Message(rest), 32)) == Shift(Message([b] + rest), 32)
  {
    hide Message, Shift, Add;
    MessageFirst(b, rest);
    ShiftAdd(Shift(Message([b]), n), Message(rest), 32);
    ShiftShift(Message([b]), n, 32);
  }

  // -- The checksum -----------------------------------------------------------

  /** x^31 + ... + x + 1, the value the register starts from and that is added at the end. */
  const ALL: Poly := set e: nat | e < 32

  /** A checksum value as a polynomial, its low bit at the highest power. */
  function Reflected(n: nat): Poly {
    set i | 0 <= i < 32 && HasBit(n, i) :: 31 - i
  }

  lemma ReflectedIsCoefficients(n: nat)
    ensures Reflected(n) == Coefficients(Bits(n, WIDTH))
  {
    hide HasBit, Bits;
    forall i | 0 <= i < 32 ensures HasBit(n, i) <==> Bits(n, WIDTH)[i] {
      BitsAt(n, WIDTH, i);
    }
  }

  lemma {:induction false} OneBits(w: nat, i: nat)
    requires i < w
    ensures Bits(Pow2(w) - 1, w)[i]
  {
    if i > 0 {
      OneBits(w - 1, i - 1);
      assert (Pow2(w) - 1) / 2 == Pow2(w - 1) - 1;
    }
  }

  lemma AllOnes()
    ensures Coefficients(ONES) == ALL && forall i | 0 <= i < 32 :: ONES[i]
  {
    hide Bits, Pow2;
    Pow2Is32();
    forall i | 0 <= i < 32 ensures ONES[i] {
      OneBits(WIDTH, i);
    }
    forall e: nat ensures e in Coefficients(ONES) <==> e in ALL {
      HasCoefficient(ONES, e);
    }
  }

  lemma {:induction false} BitsOfNumber(c: seq<bool>)
    ensures Bits(Number(c), |c|) == c
  {
    if c != [] {
      BitsOfNumber(c[1..]);
    }
  }

  /** The checksum's value, as a polynomial, before the final complement. */
  lemma HashCoefficients(s: Bytes)
    ensures Add(Reflected(Hash(s)), ALL) == Coefficients(Update(ONES, s))
  {
    hide Bits, Number, Reflected, Coefficients, Update, Add;
    var c := Update(ONES, s);
    BitsOfNumber(Xor(c, ONES));
    ReflectedIsCoefficients(Hash(s));
    XorIsAdd(c, ONES);
    AllOnes();
    AddTwice(Coefficients(c), ALL);
  }

  lemma ReflectedInjective(m: nat, n: nat)
    requires m < U32 && n < U32 && Reflected(m) == Reflected(n)
    ensures m == n
  {
    hide Bits, Reflected, Coefficients;
    var a, b := Bits(m, WIDTH), Bits(n, WIDTH);
    ReflectedIsCoefficients(m);
    ReflectedIsCoefficients(n);
    forall i | 0 <= i < 32 ensures a[i] == b[i] {
      HasCoefficient(a, 31 - i);
      HasCoefficient(b, 31 - i);
    }
    assert a == b;
    Pow2Is32();
    BitsInjective(m, n, WIDTH);
  }

  /** The checksum of a message of k bytes is the one 32-bit number that, complemented, is
      congruent to ALL * x^(8k) + message * x^32 modulo the generator: CRC-32. */
  lemma HashIsRemainder(s: Bytes, n: nat)
    requires n < U32
    ensures n == Hash(s)
            <==> Congruent(Add(Reflected(n), ALL), Add(Shift(ALL, 8 * |s|), Shift(Message(s), 32)))
  {
    hide Congruent, Reflected, Coefficients, Update, Shift, Message, Hash;
    var r := Add(Shift(ALL, 8 * |s|), Shift(Message(s), 32));
    HashCoefficients(s);
    UpdateCongruent(ONES, s);
    AllOnes();
    if Congruent(Add(Reflected(n), ALL), r) {
      CongruentSymmetric(Add(Reflected(Hash(s)), ALL), r);
      CongruentTransitive(Add(Reflected(n), ALL), r, Add(Reflected(Hash(s)), ALL));
      ReflectedBelow(n);
      ReflectedBelow(Hash(s));
      RemainderUnique(Add(Reflected(n), ALL), Add(Reflected(Hash(s)), ALL));
      AddTwice(Reflected(n), ALL);
      AddTwice(Reflected(Hash(s)), ALL);
      ReflectedInjective(n, Hash(s));
    }
  }

  lemma ReflectedBelow(n: nat)
    ensures Below(Add(Reflected(n), ALL), 32)
  {
  }
}
