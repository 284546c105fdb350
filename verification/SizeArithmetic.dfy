/** Products and remainders of sizes, and the last index of a block. */
module SizeArithmetic {
  /** lim_Se: the last index of a block of this size, or 63 for blocks larger than 8x8. */
  function LimSe(blockSize: nat): (r: nat)
    ensures r <= 63
  {
    if blockSize <= 1 then 0 else if blockSize == 2 then 3 else if blockSize == 3 then 8 else if blockSize == 4 then 15
    else if blockSize == 5 then 24 else if blockSize == 6 then 35 else if blockSize == 7 then 48 else 63
  }

  lemma LimSeIsSquare(blockSize: nat)
    requires 1 <= blockSize <= 16
    ensures if blockSize <= 8 then LimSe(blockSize) == blockSize * blockSize - 1 else 63 < blockSize * blockSize - 1 < 256
  {
    if blockSize > 8 {
      Scale(9, blockSize, blockSize);
      Scale(blockSize, 16, blockSize);
    }
  }

  lemma Product(a: nat, b: nat)
    ensures a * b >= 0 && (a >= 1 ==> a * b >= b)
  {
  }

  /** Where iMCU row cur begins, of a total. */
  lemma Begins(total: nat, cur: nat, n: nat)
    requires cur < total
    ensures cur * n >= 0 && (total - 1) * n >= cur * n
    ensures cur + 1 < total ==> (total - 1) * n >= cur * n + n
    ensures cur > 0 ==> cur * n == (cur - 1) * n + n && (cur - 1) * n >= 0
  {
    var k := total - 1 - cur;
    assert (total - 1) * n == k * n + cur * n;
    Product(k, n);
    Product(cur, n);
    if cur > 0 {
      Product(cur - 1, n);
    }
  }

  lemma Scale(x: int, y: int, k: nat)
    requires x <= y
    ensures x * k <= y * k
  {
    Product(y - x, k);
    assert (y - x) * k == y * k - x * k;
  }

  lemma Remainder(x: nat, d: nat, q: nat, r: nat)
    requires d >= 1 && x == q * d + r && 1 <= r <= d
    ensures x % d == if r == d then 0 else r
  {
    var k, z := x / d - q, x % d;
    assert x == (x / d) * d + z;
    assert (x / d) * d == k * d + q * d;
    assert k * d == r - z;
    Gap(k, d, r - z);
  }

  lemma Gap(k: int, d: nat, y: int)
    requires k * d == y && 0 - d < y <= d && d >= 1
    ensures y == 0 || y == d
  {
    if k < 0 {
      assert (0 - k - 1) * d == 0 - y - d;
      Product(0 - k - 1, d);
      assert false;
    } else if k > 1 {
      assert (k - 2) * d == y - 2 * d;
      Product(k - 2, d);
      assert false;
    }
  }
}
