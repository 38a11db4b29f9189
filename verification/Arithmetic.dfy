/** Multiples and remainders. */
module Arithmetic {

  lemma ModMultiple(x: nat, q: nat, size: nat)
    requires size > 0
    ensures (x + q * size) % size == x % size
  {
    var y := x + q * size;
    var e, r, e', r' := x / size, x % size, y / size, y % size;
    assert x == e * size + r && y == e' * size + r';
    assert (e + q - e') * size == r' - r by { assert (e + q - e') * size == e * size + q * size - e' * size; }
    SmallMultiple(e + q - e', size, r' - r);
  }

  lemma SmallMultiple(q: int, size: int, x: int)
    requires size > 0 && q * size == x && -size < x < size
    ensures x == 0
  {
    MultipleIsLarge(q, size);
  }

  lemma MultipleIsLarge(q: int, size: int)
    requires size > 0
    ensures q > 0 ==> q * size >= size
    ensures q < 0 ==> q * size <= -size
  {
    if q > 0 { assert (q - 1) * size >= 0; }
    if q < 0 { assert (-q - 1) * size >= 0; }
  }
}
