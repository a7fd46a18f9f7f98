/** Powers of two and rounding to multiples, as the bit masks of the C code do it: for a power of
    two `p`, `x & ~(p - 1)` is `Down(x, p)` and `(x + p - 1) & ~(p - 1)` is `Up(x, p)`. */
module Powers {

  predicate PowerOfTwo(n: nat) {
    n == 1 || (n > 1 && n % 2 == 0 && PowerOfTwo(n / 2))
  }

  lemma {:induction false} PowersDouble(m: nat, n: nat)
    requires PowerOfTwo(m) && PowerOfTwo(n) && m < n
    ensures 2 * m <= n
    decreases n
  {
    if m > 1 { PowersDouble(m / 2, n / 2); }
  }

  lemma Twice(n: nat)
    requires PowerOfTwo(n)
    ensures PowerOfTwo(2 * n)
  {
    assert 2 * n / 2 == n && 2 * n % 2 == 0;
  }

  lemma Times16(n: nat)
    requires PowerOfTwo(n)
    ensures PowerOfTwo(16 * n)
  {
    hide PowerOfTwo;
    Twice(n);
    Twice(2 * n);
    Twice(4 * n);
    Twice(8 * n);
  }

  lemma Times256(n: nat)
    requires PowerOfTwo(n)
    ensures PowerOfTwo(256 * n)
  {
    hide PowerOfTwo;
    Times16(n);
    Times16(16 * n);
  }

  predicate Aligned(x: int, p: nat)
    requires p > 0
  {
    x % p == 0
  }

  /** Of two powers of two, the smaller divides the larger. */
  lemma {:induction false} PowersDivide(m: nat, n: nat)
    requires PowerOfTwo(m) && PowerOfTwo(n) && m <= n
    ensures Aligned(n, m)
    decreases n
  {
    if m == 1 {
    } else {
      PowersDivide(m / 2, n / 2);
      Doubled(n / 2, m / 2);
    }
  }

  lemma Doubled(x: nat, p: nat)
    requires p > 0 && Aligned(x, p)
    ensures Aligned(2 * x, 2 * p)
  {
    var q := x / p;
    assert x == q * p;
    assert 2 * x == q * (2 * p);
    MultipleAligned(q, 2 * p);
  }

  lemma SmallProduct(t: int, p: nat)
    requires 0 - p < t * p < p
    ensures t == 0
  {
  }

  lemma Division(x: int, p: nat)
    requires p > 0
    ensures x == (x / p) * p + x % p && 0 <= x % p < p
  {
  }

  lemma MultipleAligned(q: int, p: nat)
    requires p > 0
    ensures Aligned(q * p, p)
  {
    var x := q * p;
    Division(x, p);
    SmallProduct(q - x / p, p);
  }

  lemma AlignedSum(x: int, y: int, p: nat)
    requires p > 0 && Aligned(x, p) && Aligned(y, p)
    ensures Aligned(x + y, p) && Aligned(x - y, p)
  {
    var a, b := x / p, y / p;
    assert x == a * p && y == b * p;
    assert x + y == (a + b) * p && x - y == (a - b) * p;
    MultipleAligned(a + b, p);
    MultipleAligned(a - b, p);
  }

  /** Two different multiples lie at least `p` apart. */
  lemma AlignedGap(x: int, y: int, p: nat)
    requires p > 0 && Aligned(x, p) && Aligned(y, p) && x < y
    ensures x + p <= y
  {
    AlignedSum(y, x, p);
    var d := y - x;
    Division(d, p);
    if d < p { SmallProduct(d / p, p); }
  }

  lemma AlignedThrough(x: int, q: nat, p: nat)
    requires p > 0 && q > 0 && Aligned(x, q) && Aligned(q, p)
    ensures Aligned(x, p)
  {
    var a, b := x / q, q / p;
    assert x == a * q && q == b * p;
    assert x == (a * b) * p;
    MultipleAligned(a * b, p);
  }

  function Down(x: int, p: nat): (r: int)
    requires p > 0
    ensures r <= x < r + p
    ensures x >= 0 ==> r >= 0
  {
    x - x % p
  }

  lemma DownAligned(x: int, p: nat)
    requires p > 0
    ensures Aligned(Down(x, p), p)
  {
    assert Down(x, p) == (x / p) * p;
    MultipleAligned(x / p, p);
  }

  function Up(x: int, p: nat): (r: int)
    requires p > 0
    ensures x <= r < x + p
  {
    Down(x + p - 1, p)
  }

  lemma UpAligned(x: int, p: nat)
    requires p > 0
    ensures Aligned(Up(x, p), p)
  {
    DownAligned(x + p - 1, p);
  }

  /** `Up` is the least multiple that is large enough. */
  lemma UpLeast(x: int, y: int, p: nat)
    requires p > 0 && Aligned(y, p) && x <= y
    ensures Up(x, p) <= y
  {
    UpAligned(x, p);
    if y < Up(x, p) { AlignedGap(y, Up(x, p), p); }
  }

  /** `Down` is the greatest multiple that is small enough. */
  lemma DownGreatest(x: int, y: int, p: nat)
    requires p > 0 && Aligned(y, p) && y <= x
    ensures y <= Down(x, p)
  {
    DownAligned(x, p);
    if Down(x, p) < y { AlignedGap(Down(x, p), y, p); }
  }

  lemma UpShift(x: int, b: int, p: nat)
    requires p > 0 && Aligned(b, p)
    ensures Up(b + x, p) == b + Up(x, p)
  {
    UpAligned(x, p);
    UpAligned(b + x, p);
    AlignedSum(b, Up(x, p), p);
    AlignedSum(Up(b + x, p), b, p);
    UpLeast(b + x, b + Up(x, p), p);
    UpLeast(x, Up(b + x, p) - b, p);
  }
}
