/** A (fee, size) pair ordered by fee rate, with exact cross-multiplied comparisons
    (util/feefrac.h of the modelled repository). */
module FeeFracs {
  import opened Wrappers

  const INT64_MIN: int := -0x8000_0000_0000_0000
  const INT64_MAX: int := 0x7fff_ffff_ffff_ffff
  const INT32_MIN: int := -0x8000_0000
  const INT32_MAX: int := 0x7fff_ffff

  predicate IsInt64(x: int) { INT64_MIN <= x <= INT64_MAX }
  predicate IsInt32(x: int) { INT32_MIN <= x <= INT32_MAX }

  /** The fee (`int64_t`) and size (`int32_t`) of a transaction or chunk. Fees and sizes are
      unbounded here; wrap-around of the C++ fields is not modelled. */
  datatype FeeFrac = FeeFrac(fee: int, size: int)

  /** What the constructor and the compound assignments check: a zero size comes with a zero fee. */
  predicate WellFormed(f: FeeFrac) {
    f.size != 0 || f.fee == 0
  }

  /** The values the ordering laws are about: well formed with a non-negative size. */
  predicate Ordered(f: FeeFrac) {
    WellFormed(f) && f.size >= 0
  }

  /** The default constructor's value. */
  function Empty(): (r: FeeFrac)
    ensures IsEmpty(r) && WellFormed(r) && r.fee == 0
  {
    FeeFrac(0, 0)
  }

  /** The two-argument constructor; its `Assume` becomes the precondition. */
  function Make(f: int, s: int): (r: FeeFrac)
    requires s != 0 || f == 0
    ensures WellFormed(r) && r.fee == f && r.size == s
    ensures IsEmpty(r) <==> r == Empty()
  {
    FeeFrac(f, s)
  }

  /** `IsEmpty()` looks at the size only. */
  predicate IsEmpty(f: FeeFrac) {
    f.size == 0
  }

  /** `operator+`. */
  function Add(a: FeeFrac, b: FeeFrac): FeeFrac {
    FeeFrac(a.fee + b.fee, a.size + b.size)
  }

  /** `operator-`. */
  function Sub(a: FeeFrac, b: FeeFrac): FeeFrac {
    FeeFrac(a.fee - b.fee, a.size - b.size)
  }

  /** `operator==`: both fields equal. */
  predicate Equal(a: FeeFrac, b: FeeFrac) {
    a.fee == b.fee && a.size == b.size
  }

  /** `Mul` on a platform with `__int128`: the exact product. */
  function Mul(a: int, b: int): int {
    a * b
  }

  /** `MulFallback`: a 96-bit product as a (high, low) pair built from two 64-bit products.
      `static_cast<uint32_t>(x)` is `x % 2^32` and the arithmetic shift `x >> 32` is the floor
      division by 2^32; both are what Dafny's Euclidean `%` and `/` give for a positive divisor. */
  function MulFallback(a: int, b: int): (r: (int, int))
    requires IsInt64(a) && IsInt32(b)
    ensures r.0 * 0x1_0000_0000 + r.1 == a * b
    ensures 0 <= r.1 < 0x1_0000_0000
    ensures IsInt64(r.0)
  {
    var low := (a % 0x1_0000_0000) * b;
    var high := (a / 0x1_0000_0000) * b;
    MulFallbackFacts(a, b);
    (high + low / 0x1_0000_0000, low % 0x1_0000_0000)
  }

  /** The arithmetic behind MulFallback's contract. */
  lemma MulFallbackFacts(a: int, b: int)
    requires IsInt64(a) && IsInt32(b)
    ensures var low := (a % 0x1_0000_0000) * b;
            var high := (a / 0x1_0000_0000) * b;
            && IsInt64(low) && IsInt64(high)
            && (high + low / 0x1_0000_0000) * 0x1_0000_0000 + low % 0x1_0000_0000 == a * b
            && IsInt64(high + low / 0x1_0000_0000)
  {
    var lo32 := a % 0x1_0000_0000;
    var hi32 := a / 0x1_0000_0000;
    assert a == hi32 * 0x1_0000_0000 + lo32;
    HalfProductBounds(lo32, hi32, b);
    Recombine(a, b, hi32, lo32);
  }

  /** The two partial products of MulFallback fit in 64 bits, the high one with room to spare. */
  lemma HalfProductBounds(lo32: int, hi32: int, b: int)
    requires 0 <= lo32 < 0x1_0000_0000 && -0x8000_0000 <= hi32 < 0x8000_0000 && IsInt32(b)
    ensures -0x7FFF_FFFF_8000_0000 <= lo32 * b <= 0x7FFF_FFFF_8000_0000
    ensures -0x4000_0000_0000_0000 <= hi32 * b <= 0x4000_0000_0000_0000
  {
    BoundProduct(lo32, 0xFFFF_FFFF, b, 0x8000_0000);
    BoundProduct(hi32, 0x8000_0000, b, 0x8000_0000);
  }

  /** Putting the partial products back together gives the full product. */
  lemma Recombine(a: int, b: int, hi32: int, lo32: int)
    requires a == hi32 * 0x1_0000_0000 + lo32
    ensures (hi32 * b + (lo32 * b) / 0x1_0000_0000) * 0x1_0000_0000 + (lo32 * b) % 0x1_0000_0000 == a * b
  {
    var low := lo32 * b;
    Distribute(hi32, lo32, b);
    assert low == (low / 0x1_0000_0000) * 0x1_0000_0000 + low % 0x1_0000_0000;
  }

  /** Multiplying the two halves of a split number by `b`. */
  lemma Distribute(hi32: int, lo32: int, b: int)
    ensures (hi32 * 0x1_0000_0000 + lo32) * b == (hi32 * b) * 0x1_0000_0000 + lo32 * b
  {
  }

  /** |x| <= bx and |y| <= by give |x * y| <= bx * by. */
  lemma BoundProduct(x: int, bx: int, y: int, yBound: int)
    requires -bx <= x <= bx && -yBound <= y <= yBound
    ensures -(bx * yBound) <= x * y <= bx * yBound
  {
    if x >= 0 && y >= 0 {
      MulMonotone(x, bx, y); MulMonotone(y, yBound, bx);
    } else if x >= 0 {
      MulMonotone(x, bx, -y); MulMonotone(-y, yBound, bx);
    } else if y >= 0 {
      MulMonotone(-x, bx, y); MulMonotone(y, yBound, bx);
    } else {
      MulMonotone(-x, bx, -y); MulMonotone(-y, yBound, bx);
    }
  }

  lemma MulMonotone(x: int, y: int, k: int)
    requires x <= y && k >= 0
    ensures x * k <= y * k
  {
  }

  /** The (high, low) pairs of MulFallback compare lexicographically exactly as the products do,
      which is why the fallback is a "totally ordered type" standing in for the product. */
  lemma {:induction false} MulFallbackOrder(a1: int, b1: int, a2: int, b2: int)
    requires IsInt64(a1) && IsInt32(b1) && IsInt64(a2) && IsInt32(b2)
    ensures var p, q := MulFallback(a1, b1), MulFallback(a2, b2);
            (p.0 < q.0 || (p.0 == q.0 && p.1 < q.1)) <==> a1 * b1 < a2 * b2
    ensures MulFallback(a1, b1) == MulFallback(a2, b2) <==> a1 * b1 == a2 * b2
  {
    var p, q := MulFallback(a1, b1), MulFallback(a2, b2);
    if p.0 < q.0 {
      assert p.0 * 0x1_0000_0000 + 0x1_0000_0000 <= q.0 * 0x1_0000_0000;
    } else if q.0 < p.0 {
      assert q.0 * 0x1_0000_0000 + 0x1_0000_0000 <= p.0 * 0x1_0000_0000;
    }
  }

  /** `FeeRateCompare`: compare by fee rate only, through cross products. */
  function FeeRateCompare(a: FeeFrac, b: FeeFrac): Ordering {
    CompareInt(Mul(a.fee, b.size), Mul(b.fee, a.size))
  }

  /** `operator<<`: strictly lower fee rate. */
  predicate Lower(a: FeeFrac, b: FeeFrac) {
    Mul(a.fee, b.size) < Mul(b.fee, a.size)
  }

  /** `operator>>`: strictly higher fee rate. */
  predicate Higher(a: FeeFrac, b: FeeFrac) {
    Mul(a.fee, b.size) > Mul(b.fee, a.size)
  }

  /** `operator<=>`: by fee rate, ties broken by decreasing size. */
  function Compare(a: FeeFrac, b: FeeFrac): Ordering {
    var crossA, crossB := Mul(a.fee, b.size), Mul(b.fee, a.size);
    if crossA == crossB then CompareInt(b.size, a.size) else CompareInt(crossA, crossB)
  }

  /** `a >= b` under `<=>`, the comparison the diagram's sort is based on. */
  predicate AtLeast(a: FeeFrac, b: FeeFrac) {
    Compare(a, b) != Lt
  }

  /** `a > b` under `<=>`, the comparator handed to the diagram's sort. */
  predicate IsGreater(a: FeeFrac, b: FeeFrac) {
    Compare(a, b) == Gt
  }

  // ---------------------------------------------------------------------------------------------
  // Laws of the arithmetic

  /** The default value is the empty value (0, 0). */
  lemma DefaultIsEmpty()
    ensures Empty() == Make(0, 0) && IsEmpty(Empty()) && Equal(Empty(), FeeFrac(0, 0))
  {
  }

  /** `==` is field-wise equality, and equal fee rate is not enough for it. */
  lemma EqualIsFieldwise(a: FeeFrac, b: FeeFrac)
    ensures Equal(a, b) <==> a == b
    ensures Equal(a, b) ==> FeeRateCompare(a, b) == Eq
    ensures FeeRateCompare(FeeFrac(1000, 100), FeeFrac(2000, 200)) == Eq
    ensures !Equal(FeeFrac(1000, 100), FeeFrac(2000, 200))
  {
  }

  /** `+` and `-` are componentwise and undo each other. */
  lemma AddSubInverse(a: FeeFrac, b: FeeFrac)
    ensures Sub(Add(a, b), b) == a && Add(Sub(a, b), b) == a
    ensures Add(a, b) == Add(b, a)
    ensures Add(a, Empty()) == a
  {
  }

  /** `<<` and `>>` are cross-product comparisons, mirror images of each other and refined by
      FeeRateCompare. */
  lemma LowerHigherDuality(a: FeeFrac, b: FeeFrac)
    ensures Lower(a, b) <==> a.fee * b.size < b.fee * a.size
    ensures Higher(a, b) <==> a.fee * b.size > b.fee * a.size
    ensures Lower(a, b) <==> Higher(b, a)
    ensures !(Lower(a, b) && Higher(a, b))
    ensures FeeRateCompare(a, b) == Lt <==> Lower(a, b)
    ensures FeeRateCompare(a, b) == Gt <==> Higher(a, b)
  {
  }

  /** The empty value is neither lower nor higher in fee rate than anything, itself included. */
  lemma EmptyIncomparable(e: FeeFrac, x: FeeFrac)
    requires IsEmpty(e) && WellFormed(e)
    ensures !Lower(e, x) && !Higher(e, x) && !Lower(x, e) && !Higher(x, e)
    ensures FeeRateCompare(e, x) == Eq
  {
  }

  /** `<=>` agrees with `<<` and `>>` wherever they decide, and breaks fee-rate ties by size,
      the smaller size sorting higher. */
  lemma CompareRefinesFeeRate(a: FeeFrac, b: FeeFrac)
    ensures Lower(a, b) ==> Compare(a, b) == Lt
    ensures Higher(a, b) ==> Compare(a, b) == Gt
    ensures FeeRateCompare(a, b) == Eq ==> Compare(a, b) == CompareInt(b.size, a.size)
    ensures Compare(b, a) == Compare(a, b).Flip()
  {
  }

  /** The empty value sorts after every value of positive size. */
  lemma EmptySortsLast(x: FeeFrac)
    requires x.size > 0
    ensures Compare(x, Empty()) == Lt && Compare(Empty(), x) == Gt
  {
  }

  /** `<=>` is a strong ordering on well-formed non-negative values: it says Eq only of equal values. */
  lemma {:induction false} CompareStrong(a: FeeFrac, b: FeeFrac)
    requires Ordered(a) && Ordered(b)
    ensures Compare(a, b) == Eq <==> a == b
  {
    if Compare(a, b) == Eq {
      assert a.size == b.size;
      if a.size > 0 {
        assert a.fee * a.size == b.fee * a.size;
        CancelPositive(a.fee, b.fee, a.size);
      }
    }
  }

  lemma CancelPositive(x: int, y: int, k: int)
    requires k > 0 && x * k == y * k
    ensures x == y
  {
    if x < y { MulStrict(x, y, k); } else if y < x { MulStrict(y, x, k); }
  }

  lemma MulStrict(x: int, y: int, k: int)
    requires x < y && k > 0
    ensures x * k < y * k
  {
  }

  /** `<=>` is transitive on well-formed non-negative values; with CompareStrong and the Flip law
      of CompareRefinesFeeRate it is a total order. */
  lemma {:induction false} CompareTransitive(a: FeeFrac, b: FeeFrac, c: FeeFrac)
    requires Ordered(a) && Ordered(b) && Ordered(c)
    requires Compare(a, b) == Lt && Compare(b, c) == Lt
    ensures Compare(a, c) == Lt
  {
    if a.size == 0 || b.size == 0 {
      // The empty value is the greatest one, so neither a nor b can be empty.
      assert false;
    } else if c.size == 0 {
      EmptySortsLast(a);
    } else {
      CrossTransitive(a, b, c);
    }
  }

  /** The cross-product algebra of CompareTransitive for positive sizes. */
  lemma CrossTransitive(a: FeeFrac, b: FeeFrac, c: FeeFrac)
    requires a.size > 0 && b.size > 0 && c.size > 0
    requires Compare(a, b) == Lt && Compare(b, c) == Lt
    ensures Compare(a, c) == Lt
  {
    var ab, ba := a.fee * b.size, b.fee * a.size;
    var bc, cb := b.fee * c.size, c.fee * b.size;
    assert ab <= ba && bc <= cb;
    // Scale both inequalities to the common denominator a.size * b.size * c.size.
    MulMonotone(ab, ba, c.size);
    MulMonotone(bc, cb, a.size);
    assert ab * c.size == (a.fee * c.size) * b.size;
    assert ba * c.size == bc * a.size;
    assert cb * a.size == (c.fee * a.size) * b.size;
    var ac, ca := a.fee * c.size, c.fee * a.size;
    assert ac * b.size <= ca * b.size;
    if ab < ba || bc < cb {
      if ab < ba { MulStrict(ab, ba, c.size); } else { MulStrict(bc, cb, a.size); }
      assert ac * b.size < ca * b.size;
      if ac >= ca { MulMonotone(ca, ac, b.size); }
    } else {
      assert ac * b.size == ca * b.size;
      CancelPositive(ac, ca, b.size);
      assert c.size < b.size < a.size;
    }
  }

  /** The example list of the type's documentation is in strictly increasing `<=>` order. */
  lemma DocumentedOrder()
    ensures var s := [FeeFrac(0, 1), FeeFrac(1, 2), FeeFrac(2, 3), FeeFrac(2, 2), FeeFrac(1, 1),
                      FeeFrac(3, 2), FeeFrac(2, 1), FeeFrac(0, 0)];
            forall i :: 0 <= i < |s| - 1 ==> Compare(s[i], s[i + 1]) == Lt
  {
  }

  // ---------------------------------------------------------------------------------------------
  // The in-place operators

  /** A FeeFrac variable, for the operators that update `fee` and `size` in place. */
  class FeeFracVar {
    var fee: int
    var size: int

    function Value(): FeeFrac
      reads this
    {
      FeeFrac(fee, size)
    }

    constructor (f: int, s: int)
      requires s != 0 || f == 0
      ensures Value() == Make(f, s)
    {
      fee, size := f, s;
    }

    /** `operator+=`: its `Assume` becomes the precondition. */
    method AddAssign(other: FeeFrac)
      requires WellFormed(Add(Value(), other))
      modifies this
      ensures Value() == Add(old(Value()), other)
      ensures WellFormed(Value())
    {
      fee := fee + other.fee;
      size := size + other.size;
    }

    /** `operator-=`. */
    method SubAssign(other: FeeFrac)
      requires WellFormed(Sub(Value(), other))
      modifies this
      ensures Value() == Sub(old(Value()), other)
      ensures WellFormed(Value())
    {
      fee := fee - other.fee;
      size := size - other.size;
    }
  }

  /** `swap(a, b)`: exchanges the two variables' fields. */
  method Swap(a: FeeFracVar, b: FeeFracVar)
    modifies a, b
    ensures a.Value() == old(b.Value()) && b.Value() == old(a.Value())
  {
    var f, s := a.fee, a.size;
    a.fee, a.size := b.fee, b.size;
    b.fee, b.size := f, s;
  }
}
