/** Image dimensions in blocks, MCUs and row groups (initial_setup and per_scan_setup in jcmaster.c and jdinput.c,
    jdiv_round_up in jutils.c). */
module Geometry {

  /** a / b rounded up. */
  function DivRoundUp(a: nat, b: nat): (c: nat)
    requires b > 0
  {
    (a + b - 1) / b
  }

  lemma Grows(a: int, b: int, n: nat)
    requires a <= b
    ensures a * n <= b * n
  {
    assert (b - a) * n >= 0;
  }

  lemma Distributes(a: int, b: int, n: int)
    ensures (a + b) * n == a * n + b * n
  {
  }

  lemma GrowsByOne(a: int, b: int, n: nat)
    requires a < b
    ensures a * n + n <= b * n
  {
    Grows(a + 1, b, n);
    Distributes(a, 1, n);
  }

  lemma Associates(a: int, b: int, c: int)
    ensures (a * b) * c == (a * c) * b
  {
  }

  /** It is the one number of pieces of size `b` that cover `a`, and no fewer do. */
  lemma RoundUpCovers(a: nat, b: nat)
    requires b > 0
    ensures var c := DivRoundUp(a, b); a <= c * b < a + b && (a > 0 ==> c > 0)
  {
    var c := DivRoundUp(a, b);
    assert a + b - 1 == c * b + (a + b - 1) % b;
    if c == 0 { assert c * b == 0; }
  }

  lemma CoversIsRoundUp(a: nat, b: nat, c: nat)
    requires b > 0 && a <= c * b < a + b
    ensures c == DivRoundUp(a, b)
  {
    hide DivRoundUp;
    var d := DivRoundUp(a, b);
    RoundUpCovers(a, b);
    if c < d { GrowsByOne(c, d, b); }
    if d < c { GrowsByOne(d, c, b); }
  }

  /** Blocks first and MCUs then, or MCUs at once: ceil(ceil(w * h / m) / h) == ceil(w / m). */
  lemma McusOfBlocks(w: nat, h: nat, m: nat)
    requires h > 0 && m > 0
    ensures DivRoundUp(DivRoundUp(w * h, m), h) == DivRoundUp(w, m)
  {
    hide DivRoundUp;
    var blocks, mcus := DivRoundUp(w * h, m), DivRoundUp(w, m);
    RoundUpCovers(w * h, m);
    RoundUpCovers(w, m);
    NotTooMany(w, h, m, blocks, mcus);
    NotTooFew(w, h, m, blocks, mcus);
    CoversIsRoundUp(blocks, h, mcus);
  }

  lemma NotTooFew(w: nat, h: nat, m: nat, blocks: nat, mcus: nat)
    requires h > 0 && m > 0 && blocks * m < w * h + m && w <= mcus * m
    ensures blocks <= mcus * h
  {
    Grows(w, mcus * m, h);
    Associates(mcus, m, h);
    if mcus * h < blocks { GrowsByOne(mcus * h, blocks, m); }
  }

  lemma NotTooMany(w: nat, h: nat, m: nat, blocks: nat, mcus: nat)
    requires h > 0 && m > 0 && w * h <= blocks * m && mcus * m < w + m
    ensures mcus * h < blocks + h
  {
    if mcus * h >= blocks + h {
      Grows(blocks + h, mcus * h, m);
      Distributes(blocks, h, m);
      Associates(mcus, h, m);
      GrowsByOne(mcus * m, w + m, h);
      Distributes(w, m, h);
      Commutes(h, m);
    }
  }

  lemma Commutes(a: int, b: int)
    ensures a * b == b * a
  {
  }
}
