/** Quotients and remainders for a divisor that is not a literal. */
module Division {

  lemma Gap(d: nat, a: int, b: int)
    requires a > b
    ensures d * a >= d * b + d
  {
    assert d * a == d * (a - b - 1) + d * b + d;
  }

  lemma DivUnique(x: int, d: nat, q: int, r: int)
    requires 0 <= r < d && x == d * q + r
    ensures x / d == q && x % d == r
  {
    var q', r' := x / d, x % d;
    assert x == d * q' + r';
    if q > q' { Gap(d, q, q'); } else if q < q' { Gap(d, q', q); }
  }

  lemma DivStep(a: int, d: nat)
    requires d > 0
    ensures (a + d) / d == a / d + 1
  {
    var q, r := a / d, a % d;
    assert a == d * q + r;
    assert a + d == d * (q + 1) + r;
    DivUnique(a + d, d, q + 1, r);
  }

  lemma SmallDiv(a: nat, d: nat)
    requires a < d
    ensures a / d == 0 && a % d == a
  {
    DivUnique(a, d, 0, a);
  }

  /** Adding a small amount to a remainder wraps at most once. */
  lemma ModAdd(a: nat, j: nat, d: nat)
    requires j <= d && d > 0
    ensures (a + j) % d == if a % d + j < d then a % d + j else a % d + j - d
  {
    var q, r := a / d, a % d;
    if r + j < d {
      DivUnique(a + j, d, q, r + j);
    } else {
      assert a + j == d * (q + 1) + (r + j - d);
      DivUnique(a + j, d, q + 1, r + j - d);
    }
  }

  /** `d` steps round a ring of `d` places visit every place. */
  lemma Rotation(first: nat, d: nat, i: nat) returns (j: nat)
    requires i < d
    ensures j < d && (first + j) % d == i
  {
    var r := first % d;
    j := if i >= r then i - r else i + d - r;
    ModAdd(first, j, d);
  }
}
