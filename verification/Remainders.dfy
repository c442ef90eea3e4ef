/** Remainders by a number and by its double. */
module Remainders {
  lemma ModTwice(h: nat, half: nat)
    requires half > 0
    ensures h % (2 * half) == h % half || h % (2 * half) == h % half + half
    ensures h % (2 * half) % half == h % half
  {
    var q, r := h / (2 * half), h % (2 * half);
    assert h == half * (2 * q) + r by {
      assert half * (2 * q) == 2 * half * q;
    }
    if r < half {
      ModUnique(h, half, 2 * q, r);
      ModUnique(r, half, 0, r);
    } else {
      Distribute(half, 2 * q);
      ModUnique(h, half, 2 * q + 1, r - half);
      ModUnique(r, half, 1, r - half);
    }
  }

  lemma Distribute(n: nat, k: nat)
    ensures n * (k + 1) == n * k + n
  {
  }

  lemma ModUnique(h: nat, n: nat, q: nat, r: nat)
    requires n > 0 && r < n && h == n * q + r
    ensures h % n == r
  {
    var q', r' := h / n, h % n;
    assert h == n * q' + r';
    if q' > q {
      AtLeastOnce(n, q', q);
    } else if q' < q {
      AtLeastOnce(n, q, q');
    }
  }

  lemma AtLeastOnce(n: nat, a: nat, b: nat)
    requires a > b
    ensures n * a >= n * b + n
  {
    assert n * (a - b) == n * a - n * b;
    assert n * (a - b - 1) >= 0;
  }

  lemma ModBound(h: nat, n: nat)
    requires n > 0
    ensures 0 <= h % n < n
  {
  }
}
