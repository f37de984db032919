/** Types and arithmetic shared by the models. */
module Common {
  datatype Option<+T> = None | Some(value: T)

  /** `uint8_t`. */
  type byte = b: int | 0 <= b < 256

  /** Quotient and remainder are unique. */
  lemma DivModUnique(x: int, q: int, r: int, c: nat)
    requires 0 <= r < c && x == c * q + r
    ensures x / c == q && x % c == r
  {
    var q', r' := x / c, x % c;
    assert c * q' + r' == c * q + r;
    assert c * (q' - q) == r - r';
    var dq := q' - q;
    assert dq >= 1 ==> c * dq >= c;
    assert dq <= -1 ==> c * dq + c <= 0;
  }

  /** A counter that wraps at every step is the wrapped count. */
  lemma ModPlus(x: nat, y: nat, c: nat)
    requires 0 < c
    ensures (x % c + y) % c == (x + y) % c
  {
    var q, r, q', r' := x / c, x % c, (x % c + y) / c, (x % c + y) % c;
    assert x + y == c * q + r + y == c * (q + q') + r';
    DivModUnique(x + y, q + q', r', c);
  }

  lemma Reassociated<T>(a: seq<T>, b: seq<T>, c: seq<T>)
    ensures a + (b + c) == a + b + c
  {
  }

  lemma {:induction false} SubsetSize<T>(a: set<T>, b: set<T>)
    requires a <= b
    ensures |a| <= |b|
    decreases |a|
  {
    if a != {} {
      var x :| x in a;
      SubsetSize(a - {x}, b - {x});
    }
  }

  predicate IsBits(x: bv8, b: int) {
    x as int == b
  }

  lemma NextBits(x: bv8)
    requires x != 255
    ensures (x + 1) as int == x as int + 1
  {
  }

  lemma {:induction false} SomeBits(b: nat)
    requires b < 256
    ensures exists x :: IsBits(x, b)
  {
    if b == 0 {
      assert IsBits(0, 0);
    } else {
      SomeBits(b - 1);
      var x :| IsBits(x, b - 1);
      NextBits(x);
      assert IsBits(x + 1, b);
    }
  }

  lemma ByteIsBits(b: byte)
    ensures (b as bv8) as int == b
  {
    SomeBits(b);
  }
}
