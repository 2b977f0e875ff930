/**
 * Integer instantiation of the generic 2- and 3-component vectors of src/math.rs.
 * The source's `isize` arithmetic is modelled by mathematical integers; the callers
 * in this model bound their coordinates so that no machine overflow can happen.
 */
module Math {

  datatype Vec2<T> = Vec2(x: T, y: T)

  datatype Vec3<T> = Vec3(x: T, y: T, z: T)

  function Abs(v: int): (r: nat)
    ensures r == v || r == -v
  {
    if v < 0 then -v else v
  }

  function Min(a: int, b: int): (r: int)
    ensures r <= a && r <= b && (r == a || r == b)
  {
    if a <= b then a else b
  }

  function Max(a: int, b: int): (r: int)
    ensures r >= a && r >= b && (r == a || r == b)
  {
    if a >= b then a else b
  }

  // ---------------------------------------------------------------- Vec2

  function Vec2New<T>(x: T, y: T): Vec2<T>
  {
    Vec2(x, y)
  }

  /** `Vec2::from_slice`: indexes `slice[0]` and `slice[1]`, so a shorter slice panics. */
  function Vec2FromSlice<T>(s: seq<T>): (r: Vec2<T>)
    requires |s| >= 2
    ensures [r.x, r.y] == s[..2]
  {
    Vec2(s[0], s[1])
  }

  /** `Vec2::default()`. */
  function Vec2Zero(): Vec2<int>
  {
    Vec2(0, 0)
  }

  function Add2(a: Vec2<int>, b: Vec2<int>): Vec2<int>
  {
    Vec2(a.x + b.x, a.y + b.y)
  }

  function Sub2(a: Vec2<int>, b: Vec2<int>): Vec2<int>
  {
    Vec2(a.x - b.x, a.y - b.y)
  }

  /** The `Mul` impl of Vec2 with Vec2: the dot product. */
  function Dot2(a: Vec2<int>, b: Vec2<int>): int
  {
    a.x * b.x + a.y * b.y
  }

  // ---------------------------------------------------------------- Vec3

  function Vec3New<T>(x: T, y: T, z: T): Vec3<T>
  {
    Vec3(x, y, z)
  }

  /** `Vec3::from_slice`: indexes `slice[0..=2]`, so a slice of fewer than three elements panics. */
  function Vec3FromSlice<T>(s: seq<T>): (r: Vec3<T>)
    requires |s| >= 3
    ensures [r.x, r.y, r.z] == s[..3]
  {
    Vec3(s[0], s[1], s[2])
  }

  /** `Vec3::default()`. */
  function Vec3Zero(): Vec3<int>
  {
    Vec3(0, 0, 0)
  }

  function Add3(a: Vec3<int>, b: Vec3<int>): Vec3<int>
  {
    Vec3(a.x + b.x, a.y + b.y, a.z + b.z)
  }

  function Sub3(a: Vec3<int>, b: Vec3<int>): Vec3<int>
  {
    Vec3(a.x - b.x, a.y - b.y, a.z - b.z)
  }

  /** The `Mul` impl of Vec3 with Vec3: the dot product. */
  function Dot3(a: Vec3<int>, b: Vec3<int>): int
  {
    a.x * b.x + a.y * b.y + a.z * b.z
  }

  /**
   * `cross_product` exactly as the source computes it: the y component is
   * `self.z * rhs.z - self.x * rhs.z`, not the textbook `self.z * rhs.x - self.x * rhs.z`.
   */
  function CrossAsWritten(a: Vec3<int>, b: Vec3<int>): Vec3<int>
  {
    Vec3(a.y * b.z - a.z * b.y, a.z * b.z - a.x * b.z, a.x * b.y - a.y * b.x)
  }

  /** The cross product the source evidently intends. */
  function Cross(a: Vec3<int>, b: Vec3<int>): Vec3<int>
  {
    Vec3(a.y * b.z - a.z * b.y, a.z * b.x - a.x * b.z, a.x * b.y - a.y * b.x)
  }

  /** Integer division truncating toward zero, as Rust's `/` on `isize`. */
  function TruncDiv(n: int, d: int): (q: int)
    requires d != 0
    ensures Abs(q) * Abs(d) <= Abs(n) < Abs(q) * Abs(d) + Abs(d)
    ensures q == 0 || (q > 0 <==> (n > 0) == (d > 0))
  {
    var q0 := Abs(n) / Abs(d);
    DivBounds(Abs(n), Abs(d));
    if (n >= 0) == (d > 0) then q0 else -q0
  }

  /** Dividing out a positive factor keeps a strict order. */
  lemma {:induction false} MulStrict(a: nat, b: nat, m: nat)
    requires a * m < b * m
    ensures a < b
  {
  }

  /** Dividing out a positive factor keeps a weak order. */
  lemma {:induction false} MulCancelLe(a: nat, b: nat, m: nat)
    requires m > 0 && a * m <= b * m
    ensures a <= b
  {
    if a > b {
      assert a * m == b * m + (a - b) * m;
      MulPositive(a - b, m);
    }
  }

  lemma {:induction false} MulPositive(a: int, b: int)
    requires a > 0 && b > 0
    ensures a * b > 0
  {
  }

  lemma {:induction false} DivBounds(a: nat, b: nat)
    requires b > 0
    ensures (a / b) * b <= a < (a / b) * b + b
  {
    assert a == (a / b) * b + a % b;
  }

  /**
   * The `Div<T>` impl of Vec3: component-wise division rounding toward zero; a zero
   * divisor panics. Each quotient is no larger in magnitude than the exact one, has its
   * sign, and leaves a remainder smaller than the divisor.
   */
  function Div3(a: Vec3<int>, m: int): (r: Vec3<int>)
    requires m != 0
    ensures Abs(a.x - r.x * m) < Abs(m) && Abs(a.y - r.y * m) < Abs(m) && Abs(a.z - r.z * m) < Abs(m)
    ensures Abs(r.x) * Abs(m) <= Abs(a.x) && Abs(r.y) * Abs(m) <= Abs(a.y) && Abs(r.z) * Abs(m) <= Abs(a.z)
    ensures (r.x > 0 ==> a.x * m > 0) && (r.x < 0 ==> a.x * m < 0)
    ensures (r.y > 0 ==> a.y * m > 0) && (r.y < 0 ==> a.y * m < 0)
    ensures (r.z > 0 ==> a.z * m > 0) && (r.z < 0 ==> a.z * m < 0)
  {
    TruncRemainder(a.x, m);
    TruncRemainder(a.y, m);
    TruncRemainder(a.z, m);
    TruncSign(a.x, m);
    TruncSign(a.y, m);
    TruncSign(a.z, m);
    Vec3(TruncDiv(a.x, m), TruncDiv(a.y, m), TruncDiv(a.z, m))
  }

  /** A non-zero truncated quotient has the sign of the exact quotient n/d, that is of n*d. */
  lemma {:induction false} TruncSign(n: int, d: int)
    requires d != 0
    ensures TruncDiv(n, d) > 0 ==> n * d > 0
    ensures TruncDiv(n, d) < 0 ==> n * d < 0
  {
    var q := TruncDiv(n, d);
    if q != 0 {
      assert Abs(q) * Abs(d) >= Abs(d);
      MulSigns(n, d, n * d);
    }
  }

  lemma {:induction false} TruncRemainder(n: int, d: int)
    requires d != 0
    ensures Abs(n - TruncDiv(n, d) * d) < Abs(d)
  {
    var q := TruncDiv(n, d);
    var p := q * d;
    MulSigns(q, d, p);
  }

  /** The product of two integers: its magnitude and its sign. */
  lemma {:induction false} MulSigns(q: int, d: int, p: int)
    requires p == q * d
    ensures Abs(p) == Abs(q) * Abs(d)
    ensures q == 0 ==> p == 0
    ensures q > 0 && d > 0 ==> p > 0
    ensures q < 0 && d < 0 ==> p > 0
    ensures q > 0 && d < 0 ==> p < 0
    ensures q < 0 && d > 0 ==> p < 0
  {
    if q >= 0 && d >= 0 {
    } else if q >= 0 {
      assert p == -(q * (-d));
    } else if d >= 0 {
      assert p == -((-q) * d);
    } else {
      assert p == (-q) * (-d);
    }
  }

  /**
   * Idealisation of `v * (num as f64 / den as f64)` on a `Vec2<isize>` (math.rs:196-205):
   * each component is the exact rational `c * num / den` truncated toward zero, as the
   * `as isize` cast truncates. Floating-point rounding is not modelled.
   */
  function ScaleFraction(v: Vec2<int>, num: int, den: int): (r: Vec2<int>)
    requires den > 0
    ensures Abs(r.x) * den <= Abs(v.x * num) < Abs(r.x) * den + den
    ensures Abs(r.y) * den <= Abs(v.y * num) < Abs(r.y) * den + den
    ensures (r.x > 0 ==> v.x * num > 0) && (r.x < 0 ==> v.x * num < 0)
    ensures (r.y > 0 ==> v.y * num > 0) && (r.y < 0 ==> v.y * num < 0)
  {
    Vec2(TruncDiv(v.x * num, den), TruncDiv(v.y * num, den))
  }

  // ---------------------------------------------------------------- lemmas

  /** Add and Sub are component-wise, so subtracting what was added gives back the original. */
  lemma {:induction false} AddSubCancel2(a: Vec2<int>, b: Vec2<int>)
    ensures Sub2(Add2(a, b), b) == a
  {
  }

  lemma {:induction false} AddSubCancel3(a: Vec3<int>, b: Vec3<int>)
    ensures Sub3(Add3(a, b), b) == a
  {
  }

  /** The dot product is commutative and vanishes against the default (zero) vector. */
  lemma {:induction false} DotProperties2(a: Vec2<int>, b: Vec2<int>)
    ensures Dot2(a, b) == Dot2(b, a)
    ensures Dot2(a, Vec2Zero()) == 0 && Add2(a, Vec2Zero()) == a
  {
  }

  lemma {:induction false} DotProperties3(a: Vec3<int>, b: Vec3<int>)
    ensures Dot3(a, b) == Dot3(b, a)
    ensures Dot3(a, Vec3Zero()) == 0 && Add3(a, Vec3Zero()) == a
  {
  }

  /** From a slice of at least three elements, only the first three matter. */
  lemma {:induction false} FromSliceTakesPrefix<T>(s: seq<T>)
    requires |s| >= 3
    ensures Vec3FromSlice(s) == Vec3New(s[0], s[1], s[2]) == Vec3FromSlice(s[..3])
    ensures Vec2FromSlice(s) == Vec2New(s[0], s[1]) == Vec2FromSlice(s[..2])
  {
  }

  /**
   * The as-written cross product keeps the textbook x and z components, but
   * a x a is not zero: with a = (0, 0, 1) it is (0, 1, 0).
   */
  lemma {:induction false} CrossAsWrittenSelfNotZero()
    ensures CrossAsWritten(Vec3(0, 0, 1), Vec3(0, 0, 1)) == Vec3(0, 1, 0)
    ensures Cross(Vec3(0, 0, 1), Vec3(0, 0, 1)) == Vec3Zero()
  {
  }

  /** The as-written components agree with the intended ones except y, which is off by z*(b.z - b.x). */
  lemma {:induction false} CrossAsWrittenDiffersOnlyInY(a: Vec3<int>, b: Vec3<int>)
    ensures CrossAsWritten(a, b).x == Cross(a, b).x && CrossAsWritten(a, b).z == Cross(a, b).z
    ensures CrossAsWritten(a, b).y - Cross(a, b).y == a.z * (b.z - b.x)
    ensures CrossAsWritten(a, a).x == 0 && CrossAsWritten(a, a).z == 0
  {
  }

  /** The intended cross product is anti-commutative, so a x a = 0, and orthogonal to both operands. */
  lemma {:induction false} CrossProperties(a: Vec3<int>, b: Vec3<int>)
    ensures Cross(a, b) == Sub3(Vec3Zero(), Cross(b, a))
    ensures Cross(a, a) == Vec3Zero()
    ensures Dot3(Cross(a, b), a) == 0 && Dot3(Cross(a, b), b) == 0
  {
  }
}
