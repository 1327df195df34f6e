/** Remainders by a size that is not a constant. */
module Modular {

  lemma ModSuccessor(k: nat, size: nat)
    requires 0 < size
    ensures (k + 1) % size == if k % size + 1 == size then 0 else k % size + 1
  {
    var q, r := k / size, k % size;
    assert k == size * q + r;
    if r + 1 == size {
      assert k + 1 == size * (q + 1);
      ModOfMultiple(q + 1, 0, size);
    } else {
      assert k + 1 == size * q + (r + 1);
      ModOfMultiple(q, r + 1, size);
    }
  }

  lemma {:induction false} ModOfMultiple(q: nat, r: nat, size: nat)
    requires r < size
    ensures (size * q + r) % size == r
    decreases q
  {
    if q > 0 {
      ModOfMultiple(q - 1, r, size);
      assert size * q + r == size * (q - 1) + r + size;
      ModPlusSize(size * (q - 1) + r, size);
    }
  }

  lemma ModPlusSize(a: nat, size: nat)
    requires 0 < size
    ensures (a + size) % size == a % size
  {
    var q, r := a / size, a % size;
    var q', r' := (a + size) / size, (a + size) % size;
    assert size * (q' - q - 1) == r - r' by {
      assert a == size * q + r;
      assert a + size == size * q' + r';
      assert size * (q' - q - 1) == size * q' - size * q - size;
    }
    MultipleBelow(q' - q - 1, size, r - r');
  }

  lemma MultipleBelow(m: int, size: int, d: int)
    requires 0 < size && size * m == d && -size < d < size
    ensures d == 0
  {
    assert m >= 1 ==> size * m >= size;
    assert m <= -1 ==> size * m <= -size;
  }

  /** Positions less than a buffer apart use different slots. */
  lemma ModDistinct(j: nat, k: nat, size: nat)
    requires j < k < j + size
    ensures j % size != k % size
  {
    if j % size == k % size {
      var q, q' := j / size, k / size;
      assert size * (q' - q) == k - j by {
        assert j == size * q + j % size;
        assert k == size * q' + k % size;
        assert size * (q' - q) == size * q' - size * q;
      }
      MultipleBelow(q' - q, size, k - j);
    }
  }

  lemma {:induction false} AddMultiple(y: nat, t: nat, size: nat)
    requires 0 < size
    ensures 0 <= size * t && (y + size * t) % size == y % size
    decreases t
  {
    if t > 0 {
      AddMultiple(y, t - 1, size);
      assert y + size * t == (y + size * (t - 1)) + size;
      ModPlusSize(y + size * (t - 1), size);
    }
  }
}
