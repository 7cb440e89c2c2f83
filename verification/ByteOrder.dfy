/** Numbers as bytes, digit by digit. */
module ByteOrder {
  import opened Common

  type pos = n: nat | n > 0 witness 1

  function Pow256(w: nat): pos {
    if w == 0 then 1 else 256 * Pow256(w - 1)
  }

  /** Least significant byte first. */
  function LittleEndian(n: nat, w: nat): (b: Bytes)
    ensures |b| == w
  {
    if w == 0 then [] else [n % 256] + LittleEndian(n / 256, w - 1)
  }

  /** Most significant byte first. */
  function BigEndian(n: nat, w: nat): (b: Bytes)
    ensures |b| == w
  {
    if w == 0 then [] else BigEndian(n / 256, w - 1) + [n % 256]
  }

  // ---- digits ----

  lemma {:induction false} MulLess(d: nat, x: nat, y: nat)
    ensures x < y ==> d * x + d <= d * y
  {
    if x < y {
      assert d * y == d * x + d * (y - x);
      assert d * (y - x) == d + d * (y - x - 1);
    }
  }

  lemma {:induction false} QuotientIs(n: nat, d: nat, q: nat)
    requires d > 0 && d * q <= n < d * q + d
    ensures n / d == q
  {
    var e := n / d;
    assert n == d * e + n % d;
    MulLess(d, e, q);
    MulLess(d, q, e);
  }

  lemma {:induction false} Associate(a: nat, b: nat, c: nat)
    ensures a * (b * c) == (a * b) * c
  {
  }

  /** Taking one byte off and then dividing is dividing by 256 times as much. */
  lemma {:induction false} DivideTwice(n: nat, b: nat)
    requires b > 0
    ensures n / 256 / b == n / (256 * b)
  {
    var q, r := n / 256 / b, n / 256 % b;
    Associate(256, b, q);
    BracketByte(n, b, b * q, r);
    QuotientIs(n, 256 * b, q);
  }

  lemma {:induction false} BracketByte(n: nat, b: nat, bq: nat, r: nat)
    requires n / 256 == bq + r && r < b
    ensures 256 * bq <= n < 256 * bq + 256 * b
  {
  }

  /** Byte `j` is the digit of 256 to the `j`. */
  lemma {:induction false} LittleEndianDigit(n: nat, w: nat, j: nat)
    requires j < w
    ensures LittleEndian(n, w)[j] == n / Pow256(j) % 256
  {
    if j > 0 {
      LittleEndianDigit(n / 256, w - 1, j - 1);
      DivideTwice(n, Pow256(j - 1));
    }
  }

  /** Byte `i` is the digit of 256 to the `w - 1 - i`. */
  lemma {:induction false} BigEndianDigit(n: nat, w: nat, i: nat)
    requires i < w
    ensures BigEndian(n, w)[i] == n / Pow256(w - 1 - i) % 256
  {
    if i < w - 1 {
      BigEndianDigit(n / 256, w - 1, i);
      DivideTwice(n, Pow256(w - 2 - i));
    }
  }

  // ---- reading back ----

  lemma {:induction false} BigEndianInjective(n: nat, m: nat, w: nat)
    requires n < Pow256(w) && m < Pow256(w) && BigEndian(n, w) == BigEndian(m, w)
    ensures n == m
  {
    if w > 0 {
      var a, b := BigEndian(n, w), BigEndian(m, w);
      assert a[..w - 1] == BigEndian(n / 256, w - 1) && b[..w - 1] == BigEndian(m / 256, w - 1);
      assert a[w - 1] == n % 256 && b[w - 1] == m % 256;
      BigEndianInjective(n / 256, m / 256, w - 1);
    }
  }

  lemma {:induction false} LittleEndianInjective(n: nat, m: nat, w: nat)
    requires n < Pow256(w) && m < Pow256(w) && LittleEndian(n, w) == LittleEndian(m, w)
    ensures n == m
  {
    if w > 0 {
      var a, b := LittleEndian(n, w), LittleEndian(m, w);
      assert a[1..] == LittleEndian(n / 256, w - 1) && b[1..] == LittleEndian(m / 256, w - 1);
      assert a[0] == n % 256 && b[0] == m % 256;
      LittleEndianInjective(n / 256, m / 256, w - 1);
    }
  }
}
