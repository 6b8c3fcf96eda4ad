/** Arithmetic modulo 97, as the IBAN check needs it.

    `Multiple` says that 97 divides a number; it is stated by a quotient, so that lemmas can hand
    one on. As 97 is prime, ten, a hundred and every digit but zero can be cancelled. Ten has
    order 96, so that no power of ten up to the length of an IBAN leaves the remainder one;
    `Residues` lists the remainders, eleven steps to a row, and `PowerResidue` checks them one by
    one. What an IBAN makes of this is in `Checksum`. */
module Mod97 {

  function Times97(k: int): int { 97 * k }

  ghost predicate Multiple(x: int) {
    exists k :: x == Times97(k)
  }

  lemma SameResidue(x: nat, y: nat)
    ensures x % 97 == y % 97 <==> Multiple(x - y)
  {
    if x % 97 == y % 97 { assert x - y == Times97(x / 97 - y / 97); }
    if Multiple(x - y) {
      var k :| x - y == Times97(k);
      assert x == 97 * (y / 97 + k) + y % 97;
    }
  }

  lemma Streaming(x: nat, d: nat)
    ensures (x % 97 * 10 + d) % 97 == (10 * x + d) % 97
  {
    var q := x / 97;
    assert 10 * x + d == 97 * (10 * q) + (x % 97 * 10 + d);
  }

  lemma CheckDigitsFit(blank: nat, digits: nat)
    ensures (blank + digits) % 97 == 1 <==> digits % 97 == (98 - blank % 97) % 97
  {
    var b, d := blank % 97, digits % 97;
    assert (blank + digits) % 97 == (b + d) % 97;
  }

  /** 97 is prime to ten. */
  lemma TenIsInvertible(x: int)
    ensures Multiple(10 * x) <==> Multiple(x)
    ensures Multiple(100 * x) <==> Multiple(x)
  {
    if Multiple(x) {
      var k :| x == Times97(k);
      assert 10 * x == Times97(10 * k) && 100 * x == Times97(100 * k);
    }
    if Multiple(10 * x) {
      var k :| 10 * x == Times97(k);
      assert x == Times97(68 * k - 7 * x);
    }
    if Multiple(100 * x) {
      var k :| 100 * x == Times97(k);
      assert x == Times97(65 * k - 67 * x);
    }
  }

  lemma SmallGap(d: int)
    requires -97 < d < 97
    ensures Multiple(d) <==> d == 0
  {
    if d == 0 { assert d == Times97(0); }
  }

  lemma LettersGap(a: int, b: int)
    requires 0 <= a < 36 && 0 <= b < 36
    ensures Multiple(99 * (a - b)) <==> a == b
  {
    var d := a - b;
    if Multiple(99 * d) {
      var k :| 99 * d == Times97(k);
      assert 2 * d == Times97(k - d);
      SmallGap(2 * d);
    }
    if d == 0 { assert 99 * d == Times97(0); }
  }

  lemma NineTimes(g: int)
    requires -120 < g < 120
    ensures Multiple(9 * g) <==> g == 0 || g == 97 || g == -97
  {
    if Multiple(9 * g) {
      var k :| 9 * g == Times97(k);
      assert g == Times97(54 * k - 5 * g);
    }
    if g == 0 { assert 9 * g == Times97(0); }
    if g == 97 { assert 9 * g == Times97(9); }
    if g == -97 { assert 9 * g == Times97(-9); }
  }

  function Pow10(k: nat): nat { if k == 0 then 1 else 10 * Pow10(k - 1) }

  lemma NextPower(k: nat)
    ensures Pow10(k + 1) == 10 * Pow10(k)
  {
  }

  /** Powers of ten modulo 97, from the power of `11 * i` on. */
  function Residues(i: nat): (rs: seq<nat>)
    ensures |rs| == 12
  {
    match i
    case 0 => [1, 10, 3, 30, 9, 90, 27, 76, 81, 34, 49, 5]
    case 1 => [5, 50, 15, 53, 45, 62, 38, 89, 17, 73, 51, 25]
    case 2 => [25, 56, 75, 71, 31, 19, 93, 57, 85, 74, 61, 28]
    case 3 => [28, 86, 84, 64, 58, 95, 77, 91, 37, 79, 14, 43]
    case 4 => [43, 42, 32, 29, 96, 87, 94, 67, 88, 7, 70, 21]
    case _ => [21, 16, 63, 48, 92, 47, 82, 44, 52, 35, 59, 8]
  }

  lemma ResidueStep(i: nat, j: nat)
    requires i <= 5 && j < 11
    ensures 10 * Residues(i)[j] % 97 == Residues(i)[j + 1] != 1
    ensures i < 5 ==> Residues(i)[11] == Residues(i + 1)[0]
  {
    match i
    case 0 =>
    case 1 =>
    case 2 =>
    case 3 =>
    case 4 =>
    case _ =>
  }

  lemma {:induction false} PowerResidue(i: nat, j: nat)
    requires i <= 5 && j <= 11
    ensures Pow10(11 * i + j) % 97 == Residues(i)[j]
    decreases i, j
  {
    if j > 0 {
      PowerResidue(i, j - 1);
      ResidueStep(i, j - 1);
      Streaming(Pow10(11 * i + j - 1), 0);
    } else if i > 0 {
      PowerResidue(i - 1, 11);
      ResidueStep(i - 1, 10);
    }
  }

  /** Ten to the power of `k` is not one modulo 97 for the widths that occur (its order is 96). */
  lemma PowerShows(k: nat)
    requires 1 <= k <= 65
    ensures !Multiple(Pow10(k) - 1)
  {
    var i, j := (k - 1) / 11, (k - 1) % 11;
    PowerResidue(i, j + 1);
    ResidueStep(i, j);
    SameResidue(Pow10(k), 1);
  }

  function Inverse(d: nat): (e: nat)
    requires 1 <= d <= 9
    ensures d * e % 97 == 1
  {
    if d == 1 then 1 else if d == 2 then 49 else if d == 3 then 65 else if d == 4 then 73 else if d == 5 then 39
    else if d == 6 then 81 else if d == 7 then 14 else if d == 8 then 85 else 54
  }

  lemma CancelBy(a: int, e: int, q: int, z: int, m: int)
    requires a * e == 97 * q + 1 && a * z == 97 * m
    ensures z == 97 * (e * m - q * z)
  {
    assert e * (a * z) == (a * e) * z;
    assert (97 * q + 1) * z == 97 * (q * z) + z;
    assert e * (97 * m) == 97 * (e * m);
  }

  /** A digit that is not zero has an inverse modulo 97. */
  lemma DigitCancels(gap: int, d: int, z: int)
    requires -9 <= d <= 9 && d != 0 && gap == d * z && Multiple(gap)
    ensures Multiple(z)
  {
    var k :| gap == Times97(k);
    var a, m := if d > 0 then d else -d, if d > 0 then k else -k;
    var e := Inverse(a);
    var q := a * e / 97;
    CancelBy(a, e, q, z, m);
    assert z == Times97(e * m - q * z);
  }

  lemma ScaleStep(d: int, p: int, c: int)
    ensures c * (d * p) == d * (c * p)
  {
  }

  lemma EndsArithmetic(v: int, u: int, a: int, b: int, x: int, y: int, p: int, z: int)
    requires v == 10 * a + y && u == 10 * b + x && a - b == (x - y) * p && z == 10 * p - 1
    ensures v - u == (x - y) * z
  {
    ScaleStep(x - y, p, 10);
  }

  lemma EndsApart(v: int, u: int, a: int, b: int, x: int, y: int, w: nat)
    requires v == 10 * a + y && u == 10 * b + x && a - b == (x - y) * Pow10(w)
    requires 0 <= x <= 9 && 0 <= y <= 9 && x != y && w <= 64
    ensures !Multiple(v - u)
  {
    var z := Pow10(w + 1) - 1;
    NextPower(w);
    EndsArithmetic(v, u, a, b, x, y, Pow10(w), z);
    PowerShows(w + 1);
    if Multiple(v - u) { DigitCancels(v - u, x - y, z); }
  }
}
