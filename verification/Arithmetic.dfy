/** Facts about products and remainders that the solver does not find on its own. */
module Arithmetic {

  lemma AtLeast(x: int, w: int)
    requires x >= 1 && w > 0
    ensures x * w >= w
  {
  }

  lemma SmallMultiple(x: int, w: int)
    requires w > 0 && -w < x * w < w
    ensures x == 0
  {
    if x >= 1 { AtLeast(x, w); assert false; }
    if x <= -1 { AtLeast(-x, w); assert false; }
  }

  lemma MultipleMod(q: int, d: int)
    requires d > 0
    ensures (q * d) % d == 0
  {
    var r := (q * d) % d;
    assert q * d == (q * d) / d * d + r;
    assert (q - (q * d) / d) * d == q * d - (q * d) / d * d;
    SmallMultiple(q - (q * d) / d, d);
  }
}
