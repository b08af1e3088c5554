/** Byte strings: fixed-width integer encodings and the lexicographic order of keys. */
module Bytes {

  type byte = x: int | 0 <= x < 256
  type Bytes = seq<byte>
  type Key = Bytes
  type Value = Bytes

  // Widths of the integers on disk and on the wire, in bytes.
  const W2: nat := 2
  const W4: nat := 4
  const W8: nat := 8

  const U32: nat := 0x1_0000_0000
  const U64: nat := 0x1_0000_0000_0000_0000

  // -- Little-endian integers ------------------------------------------------

  /** 256 to the power w: the number of values a w-byte integer can take. */
  function Pow256(w: nat): (p: nat)
    ensures p > 0
  {
    if w == 0 then 1 else 256 * Pow256(w - 1)
  }

  /** The w low-order bytes of n, least significant first. Higher bytes are lost,
      as they are in the source's narrowing `as u32` casts. */
  function LE(n: nat, w: nat): (s: Bytes)
    ensures |s| == w
  {
    if w == 0 then [] else [n % 256] + LE(n / 256, w - 1)
  }

  function FromLE(s: Bytes): (n: nat)
    ensures n < Pow256(|s|)
  {
    if s == [] then 0 else s[0] + 256 * FromLE(s[1..])
  }

  lemma Widths()
    ensures Pow256(2) == 0x1_0000 && Pow256(4) == U32 && Pow256(8) == U64
  {
    assert Pow256(4) == 256 * (256 * (256 * (256 * Pow256(0))));
    assert Pow256(8) == 256 * (256 * (256 * (256 * Pow256(4))));
  }

  lemma SplitMod(n: nat, p: nat)
    requires p > 0
    ensures n % (256 * p) == n % 256 + 256 * (n / 256 % p)
    ensures n / (256 * p) == n / 256 / p
  {
    var q, r := n / 256 / p, n / 256 % p;
    assert n / 256 == p * q + r;
    assert n == (256 * p) * q + (n % 256 + 256 * r);
    DivModUnique(n, 256 * p, q, n % 256 + 256 * r);
  }

  lemma DivModUnique(n: nat, d: nat, q: nat, r: nat)
    requires d > 0 && r < d && n == d * q + r
    ensures n / d == q && n % d == r
  {
    var k := n / d - q;
    assert d * k == r - n % d;
    if k >= 1 {
      assert false;
    } else if k <= -1 {
      assert false;
    }
  }

  /** Decoding what was encoded gives the number back, modulo the width. */
  lemma {:induction false} DecodeEncodeLE(n: nat, w: nat)
    ensures FromLE(LE(n, w)) == n % Pow256(w)
  {
    if w > 0 {
      DecodeEncodeLE(n / 256, w - 1);
      SplitMod(n, Pow256(w - 1));
      assert LE(n, w)[1..] == LE(n / 256, w - 1);
    }
  }

  lemma DecodeEncodeLE4(n: nat)
    ensures FromLE(LE(n, W4)) == n % U32
    ensures n < U32 ==> FromLE(LE(n, W4)) == n
  {
    hide LE, FromLE;
    DecodeEncodeLE(n, W4);
    Widths();
  }

  lemma DecodeEncodeLE8(n: nat)
    ensures FromLE(LE(n, W8)) == n % U64
    ensures n < U64 ==> FromLE(LE(n, W8)) == n
  {
    hide LE, FromLE;
    DecodeEncodeLE(n, W8);
    Widths();
  }

  /** Every byte string is the encoding of the number it decodes to. */
  lemma {:induction false} EncodeDecodeLE(s: Bytes)
    ensures LE(FromLE(s), |s|) == s
  {
    if s != [] {
      EncodeDecodeLE(s[1..]);
      var n, rest := FromLE(s), FromLE(s[1..]);
      DivModUnique(n, 256, rest, s[0]);
      assert LE(n, |s|) == [s[0]] + LE(rest, |s| - 1);
    }
  }

  /** Byte i of the encoding is digit i of the number in base 256. */
  lemma {:induction false} LittleEndianDigits(n: nat, w: nat, i: nat)
    requires i < w
    ensures LE(n, w)[i] == n / Pow256(i) % 256
  {
    if i > 0 {
      LittleEndianDigits(n / 256, w - 1, i - 1);
      SplitMod(n, Pow256(i - 1));
    }
  }

  lemma SliceOfSuffix(s: Bytes, from: nat, a: nat, b: nat)
    requires from <= |s| && a <= b <= |s| - from
    ensures s[from..][a..b] == s[from + a..from + b]
  {
  }

  // -- Big-endian integers ---------------------------------------------------

  function BE(n: nat, w: nat): (s: Bytes)
    ensures |s| == w
  {
    if w == 0 then [] else BE(n / 256, w - 1) + [n % 256]
  }

  function FromBE(s: Bytes): (n: nat)
    ensures n < Pow256(|s|)
  {
    if s == [] then 0 else 256 * FromBE(s[..|s| - 1]) + s[|s| - 1]
  }

  lemma {:induction false} DecodeEncodeBE(n: nat, w: nat)
    ensures FromBE(BE(n, w)) == n % Pow256(w)
  {
    if w > 0 {
      DecodeEncodeBE(n / 256, w - 1);
      SplitMod(n, Pow256(w - 1));
      assert BE(n, w)[..w - 1] == BE(n / 256, w - 1);
    }
  }

  lemma DecodeEncodeBE4(n: nat)
    requires n < U32
    ensures FromBE(BE(n, W4)) == n
  {
    hide BE, FromBE;
    DecodeEncodeBE(n, W4);
    Widths();
  }

  lemma {:induction false} EncodeDecodeBE(s: Bytes)
    ensures BE(FromBE(s), |s|) == s
  {
    if s != [] {
      EncodeDecodeBE(s[..|s| - 1]);
    }
  }

  /** Big-endian is little-endian reversed. */
  lemma {:induction false} BigEndianReverses(n: nat, w: nat, i: nat)
    requires i < w
    ensures BE(n, w)[i] == LE(n, w)[w - 1 - i]
  {
    if i < w - 1 {
      BigEndianReverses(n / 256, w - 1, i);
    }
  }

  // -- Key order -------------------------------------------------------------

  /** The order of byte slices: first difference decides, a proper prefix is smaller. */
  predicate KeyLess(a: Key, b: Key) {
    b != [] && (a == [] || a[0] < b[0] || (a[0] == b[0] && KeyLess(a[1..], b[1..])))
  }

  /** The keys agree up to position i, where a ends and b does not, or has the smaller byte. */
  predicate LessAt(a: Key, b: Key, i: nat) {
    && i <= |a| && i <= |b| && a[..i] == b[..i]
    && (i == |a| < |b| || (i < |a| && i < |b| && a[i] < b[i]))
  }

  /** The order of byte slices by their first difference. */
  ghost predicate Precedes(a: Key, b: Key) {
    exists i: nat :: LessAt(a, b, i)
  }

  lemma HeadsAgree(a: Key, b: Key, i: nat)
    requires LessAt(a, b, i)
    ensures i > 0 ==> a[0] == b[0]
  {
    if i > 0 {
      assert a[..i][0] == a[0] && b[..i][0] == b[0];
    }
  }

  /** The recursive order is that of the first difference. */
  lemma {:induction false} KeyLessIsPrecedes(a: Key, b: Key)
    ensures KeyLess(a, b) <==> Precedes(a, b)
  {
    if a == [] || b == [] || a[0] != b[0] {
      if KeyLess(a, b) {
        assert LessAt(a, b, 0);
      }
      forall i: nat | LessAt(a, b, i) ensures i == 0 {
        HeadsAgree(a, b, i);
      }
    } else {
      KeyLessIsPrecedes(a[1..], b[1..]);
      if KeyLess(a, b) {
        var i: nat :| LessAt(a[1..], b[1..], i);
        assert a[..i + 1] == [a[0]] + a[1..][..i] && b[..i + 1] == [b[0]] + b[1..][..i];
        assert LessAt(a, b, i + 1);
      }
      if Precedes(a, b) {
        var i: nat :| LessAt(a, b, i);
        assert a[1..][..i - 1] == a[..i][1..] && b[1..][..i - 1] == b[..i][1..];
        assert LessAt(a[1..], b[1..], i - 1);
      }
    }
  }

  lemma {:induction false} KeyLessTotal(a: Key, b: Key)
    ensures KeyLess(a, b) || a == b || KeyLess(b, a)
    ensures !(KeyLess(a, b) && KeyLess(b, a))
    ensures a == b ==> !KeyLess(a, b)
  {
    if a != [] && b != [] && a[0] == b[0] {
      KeyLessTotal(a[1..], b[1..]);
      assert a == [a[0]] + a[1..] && b == [b[0]] + b[1..];
    }
  }

  lemma {:induction false} KeyLessTransitive(a: Key, b: Key, c: Key)
    requires KeyLess(a, b) && KeyLess(b, c)
    ensures KeyLess(a, c)
  {
    if a != [] && a[0] == b[0] && b[0] == c[0] {
      KeyLessTransitive(a[1..], b[1..], c[1..]);
    }
  }

  ghost predicate IsLeast(k: Key, s: set<Key>) {
    k in s && forall x <- s :: x == k || KeyLess(k, x)
  }

  lemma LeastExists(s: set<Key>)
    requires s != {}
    ensures exists k :: IsLeast(k, s)
  {
    var x :| x in s;
    if s == {x} {
      assert IsLeast(x, s);
    } else {
      var rest := s - {x};
      LeastExists(rest);
      var k :| IsLeast(k, rest);
      KeyLessTotal(x, k);
      if KeyLess(x, k) {
        forall y <- s ensures y == x || KeyLess(x, y) {
          if y != x && y != k {
            KeyLessTransitive(x, k, y);
          }
        }
        assert IsLeast(x, s);
      } else {
        assert IsLeast(k, s);
      }
    }
  }

  /** The smallest key of a non-empty set. */
  function Least(s: set<Key>): (k: Key)
    requires s != {}
    ensures IsLeast(k, s)
  {
    LeastExists(s);
    assert forall a, b | a in s && b in s && IsLeast(a, s) && IsLeast(b, s) :: a == b by {
      forall a, b | a in s && b in s && IsLeast(a, s) && IsLeast(b, s) ensures a == b {
        KeyLessTotal(a, b);
      }
    }
    var k :| k in s && forall x <- s :: x == k || KeyLess(k, x);
    k
  }

  ghost predicate StrictlySorted(keys: seq<Key>) {
    forall i, j | 0 <= i < j < |keys| :: KeyLess(keys[i], keys[j])
  }

  /** The keys of a set in increasing order: the iteration order of a BTreeMap. */
  function SortedKeys(s: set<Key>): (keys: seq<Key>)
    ensures StrictlySorted(keys)
    ensures forall k :: k in keys <==> k in s
    ensures |keys| == |s|
    decreases |s|
  {
    if s == {} then [] else
      var k := Least(s);
      var rest := SortedKeys(s - {k});
      assert forall j | 0 <= j < |rest| :: rest[j] in s - {k};
      [k] + rest
  }
}
