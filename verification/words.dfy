/** Fixed-width words, wrapping `u16` counters and the arithmetic of power-of-two rings. */
module Words {

  const TWO16: int := 0x1_0000
  const TWO32: int := 0x1_0000_0000
  const TWO64: int := 0x1_0000_0000_0000_0000

  type u8 = x: int | 0 <= x < 0x100
  type u16 = x: int | 0 <= x < 0x1_0000
  type u32 = x: int | 0 <= x < 0x1_0000_0000
  type u64 = x: int | 0 <= x < 0x1_0000_0000_0000_0000

  datatype Option<+T> = None | Some(value: T)

  datatype Result<+T, +E> = Ok(value: T) | Err(error: E)

  function Min(a: int, b: int): int { if a < b then a else b }

  /** `Wrapping<u16>` addition and subtraction. */
  function WrapAdd(a: int, b: int): u16 { (a + b) % TWO16 }
  function WrapSub(a: int, b: int): u16 { (a - b) % TWO16 }

  /** `u64::checked_add`. */
  function CheckedAdd(a: int, b: int): Option<int> {
    if a + b < TWO64 then Some(a + b) else None
  }

  /** Bitwise `&` on natural numbers. */
  function BitAnd(a: nat, b: nat): nat {
    if a == 0 || b == 0 then 0 else 2 * BitAnd(a / 2, b / 2) + if a % 2 == 1 && b % 2 == 1 then 1 else 0
  }

  predicate PowerOfTwo(n: int)
    decreases n
  {
    n == 1 || (n > 1 && n % 2 == 0 && PowerOfTwo(n / 2))
  }

  /** The sizes a split ring can have: the powers of two up to 32768. */
  predicate IsRingSize(n: int) {
    n == 1 || n == 2 || n == 4 || n == 8 || n == 16 || n == 32 || n == 64 || n == 128 ||
    n == 256 || n == 512 || n == 1024 || n == 2048 || n == 4096 || n == 8192 || n == 16384 || n == 32768
  }

  lemma {:induction false} BitAndSelf(n: nat)
    ensures BitAnd(n, n) == n
    decreases n
  {
    if n > 0 {
      BitAndSelf(n / 2);
    }
  }

  /** The test `n & (n - 1) == 0` of the size setters recognises exactly the powers of two. */
  lemma {:induction false} BitTrickIsPowerOfTwo(n: int)
    requires n > 0
    ensures BitAnd(n, n - 1) == 0 <==> PowerOfTwo(n)
    decreases n
  {
    if n > 1 {
      if n % 2 == 0 {
        assert (n - 1) / 2 == n / 2 - 1;
        BitTrickIsPowerOfTwo(n / 2);
      } else {
        assert (n - 1) / 2 == n / 2;
        BitAndSelf(n / 2);
      }
    }
  }

  lemma {:induction false} RingSizesArePowersOfTwo(n: int)
    requires n <= 32768
    ensures PowerOfTwo(n) <==> IsRingSize(n)
    decreases n
  {
    if n > 1 && n % 2 == 0 {
      RingSizesArePowersOfTwo(n / 2);
    }
  }

  // ---- Modular arithmetic ---------------------------------------------------------------------

  lemma Euclid(n: int, d: int)
    requires d > 0
    ensures n == d * (n / d) + n % d && 0 <= n % d < d
  {
  }

  lemma MulAtLeast(a: int, d: int)
    requires a >= 1 && d > 0
    ensures d * a >= d
  {
  }

  lemma UniqueRemainder(d: int, a: int, r: int, b: int, s: int)
    requires 0 <= r < d && 0 <= s < d
    requires d * a + r == d * b + s
    ensures a == b && r == s
  {
    assert d * (a - b) == s - r;
    assert d * (b - a) == r - s;
    if a > b {
      MulAtLeast(a - b, d);
    } else if a < b {
      MulAtLeast(b - a, d);
    }
  }

  lemma RingSizeDividesTwo16(size: int) returns (k: int)
    requires IsRingSize(size)
    ensures size * k == TWO16
  {
    k := TWO16 / size;
  }

  lemma ScaledSum(size: int, k: int, q: int, p: int)
    ensures size * k * q + size * p == size * (k * q + p)
  {
  }

  /** The slot computed from a wrapped counter is the slot of the unbounded counter. */
  lemma SlotOfWrapped(n: int, size: int)
    requires IsRingSize(size)
    ensures (n % TWO16) % size == n % size
  {
    var k := RingSizeDividesTwo16(size);
    var q, r := n / TWO16, n % TWO16;
    Euclid(r, size);
    Euclid(n, size);
    ScaledSum(size, k, q, r / size);
    UniqueRemainder(size, k * q + r / size, r % size, n / size, n % size);
  }

  /** Two counters less than `size` apart never share a slot. */
  lemma SlotsDiffer(i: int, j: int, size: int)
    requires size > 0 && i < j < i + size
    ensures i % size != j % size
  {
    Euclid(i, size);
    Euclid(j, size);
    var qi, qj := i / size, j / size;
    assert size * qj - size * qi == size * (qj - qi);
    if qj > qi {
      MulAtLeast(qj - qi, size);
    } else if qj < qi {
      MulAtLeast(qi - qj, size);
    }
  }

  lemma SlotInRange(n: int, size: int)
    requires size > 0
    ensures 0 <= n % size < size
  {
  }

  lemma SameRemainder(x: int, a: int, d: int, k: int)
    requires d > 0 && x == a + d * k
    ensures x % d == a % d
  {
    Euclid(x, d);
    Euclid(a, d);
    assert d * (a / d) + d * k == d * (a / d + k);
    UniqueRemainder(d, x / d, x % d, a / d + k, a % d);
  }

  lemma WrapOfSum(n: int, k: int)
    ensures WrapAdd(n % TWO16, k) == (n + k) % TWO16
    ensures WrapSub(n % TWO16, k) == (n - k) % TWO16
  {
    Euclid(n, TWO16);
    SameRemainder(n % TWO16 + k, n + k, TWO16, -(n / TWO16));
    SameRemainder(n % TWO16 - k, n - k, TWO16, -(n / TWO16));
  }

  /** Wrapping subtraction recovers the distance of two counters that are close. */
  lemma WrapDistance(hi: int, lo: int)
    requires 0 <= hi - lo < TWO16
    ensures WrapSub(hi % TWO16, lo % TWO16) == hi - lo
  {
    Euclid(hi, TWO16);
    Euclid(lo, TWO16);
    SameRemainder(hi % TWO16 - lo % TWO16, hi - lo, TWO16, lo / TWO16 - hi / TWO16);
  }

  // ---- Counting -------------------------------------------------------------------------------

  lemma {:induction false} BoundedSet(xs: set<int>, n: nat)
    requires forall x :: x in xs ==> 0 <= x < n
    ensures |xs| <= n
    decreases n
  {
    if n > 0 {
      BoundedSet(xs - {n - 1}, n - 1);
      assert xs <= (xs - {n - 1}) + {n - 1};
    } else {
      assert forall x :: x in xs ==> false;
    }
  }

  // ---- Event windows --------------------------------------------------------------------------

  /** The `u16` value of an unbounded counter. */
  function Wrap(n: int): u16 { n % TWO16 }

  /** Some entry numbered `lo <= n < hi` has the wrapped index `e`. */
  ghost predicate InWindow(lo: int, hi: int, e: u16) {
    exists n :: lo <= n < hi && Wrap(n) == e
  }

  /** The comparison both sides of a virtqueue use: `new - event - 1 < new - old`, all wrapping. */
  predicate EventReached(event: int, newIdx: int, oldIdx: int) {
    Behind(event, newIdx) < WrapSub(newIdx, oldIdx)
  }

  /** How far below `newIdx` the entry with index `event` lies, counting from 0. */
  function Behind(event: int, newIdx: int): u16 { WrapSub(WrapSub(newIdx, event), 1) }

  lemma BehindIsDistance(n: int, hi: int)
    requires 0 <= hi - 1 - n < TWO16
    ensures Behind(Wrap(n), Wrap(hi)) == hi - 1 - n
  {
    assert Behind(Wrap(n), Wrap(hi)) == (hi - 1 - n) % TWO16;
  }

  lemma EntryBehind(hi: int, e: u16)
    ensures Wrap(hi - 1 - Behind(e, Wrap(hi))) == e
  {
    assert Behind(e, Wrap(hi)) == (hi - 1 - e) % TWO16;
  }

  /** The wrapping comparison is membership in the window, for windows below 2^16 entries. */
  lemma EventReachedIsInWindow(lo: int, hi: int, e: u16)
    requires 0 <= hi - lo < TWO16
    ensures EventReached(e, Wrap(hi), Wrap(lo)) <==> InWindow(lo, hi, e)
  {
    WrapDistance(hi, lo);
    EntryBehind(hi, e);
    var n0 := hi - 1 - Behind(e, Wrap(hi));
    assert EventReached(e, Wrap(hi), Wrap(lo)) ==> lo <= n0 < hi && Wrap(n0) == e;
    forall n | lo <= n < hi && Wrap(n) == e
      ensures n == n0
    {
      BehindIsDistance(n, hi);
    }
  }
}
