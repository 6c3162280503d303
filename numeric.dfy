/** Exact-arithmetic stand-ins for the `f64` and `nalgebra::Vector3<f64>`
    operations the engine uses: vectors of reals, rounding, clamping, sums
    and an integer square root. */
module Numeric {

  /** A 3-vector of reals: a normalised colour or a `Vector3<f64>`. */
  datatype Vec3 = Vec3(x: real, y: real, z: real) {

    /** Channel `i` (0 = red, 1 = green, 2 = blue). */
    function Get(i: nat): real
      requires i < 3
    {
      if i == 0 then x else if i == 1 then y else z
    }

    /** This vector with channel `i` replaced by `v`. */
    function With(i: nat, v: real): (r: Vec3)
      requires i < 3
      ensures r.Get(i) == v
      ensures forall j :: 0 <= j < 3 && j != i ==> r.Get(j) == Get(j)
    {
      if i == 0 then Vec3(v, y, z) else if i == 1 then Vec3(x, v, z) else Vec3(x, y, v)
    }
  }

  const Zero3: Vec3 := Vec3(0.0, 0.0, 0.0)

  function Add(a: Vec3, b: Vec3): Vec3 {
    Vec3(a.x + b.x, a.y + b.y, a.z + b.z)
  }

  function Sub(a: Vec3, b: Vec3): Vec3 {
    Vec3(a.x - b.x, a.y - b.y, a.z - b.z)
  }

  function Scale(k: real, a: Vec3): Vec3 {
    Vec3(k * a.x, k * a.y, k * a.z)
  }

  function Dot(a: Vec3, b: Vec3): real {
    a.x * b.x + a.y * b.y + a.z * b.z
  }

  /** Squared Euclidean norm; `v.norm() < t` is modelled as `NormSq(v) < t * t` for `t > 0`. */
  function NormSq(a: Vec3): (r: real)
    ensures r >= 0.0
  {
    a.x * a.x + a.y * a.y + a.z * a.z
  }

  /** Squared Euclidean distance between two vectors. */
  function DistSq(a: Vec3, b: Vec3): (r: real)
    ensures r >= 0.0
  {
    NormSq(Sub(a, b))
  }

  /** A vector is at distance 0 from itself. */
  lemma DistSqSelf(a: Vec3)
    ensures DistSq(a, a) == 0.0
  {
    assert Sub(a, a) == Zero3;
  }

  /** `Sqrt(d) < t`, for `d >= 0`, stated without a square root. */
  predicate SqrtBelow(d: real, t: real) {
    0.0 < t && d < t * t
  }

  /** A zero distance is below every positive threshold. */
  lemma ZeroBelowPositive(t: real)
    requires t > 0.0
    ensures SqrtBelow(0.0, t)
  {
    assert 0.0 < t * t;
  }

  /** Every channel lies in [0, 1]. */
  predicate InUnitCube(v: Vec3) {
    0.0 <= v.x <= 1.0 && 0.0 <= v.y <= 1.0 && 0.0 <= v.z <= 1.0
  }

  function Abs(x: real): (r: real)
    ensures r >= 0.0 && (r == x || r == -x)
  {
    if x < 0.0 then -x else x
  }

  function Min(a: real, b: real): (r: real)
    ensures r <= a && r <= b && (r == a || r == b)
  {
    if a <= b then a else b
  }

  function Max(a: real, b: real): (r: real)
    ensures r >= a && r >= b && (r == a || r == b)
  {
    if a >= b then a else b
  }

  /** The offset of a blend from its base is the weighted offset of its top. */
  lemma BlendOffset(a: real, f: real, b: real)
    ensures a * f + (1.0 - a) * b - b == a * (f - b)
  {
  }

  /** Multiplying by `d` and dividing by it again gives the value back. */
  lemma QuotientOfScaled(a: real, d: real)
    requires d != 0.0
    ensures (a * d) / d == a
  {
  }

  /** A fraction of a non-negative value lies between 0 and that value. */
  lemma ScaledFraction(w: real, x: real)
    requires w >= 0.0 && 0.0 <= x <= 1.0
    ensures 0.0 <= w * x <= w
  {
    assert w * x + w * (1.0 - x) == w;
    assert w * (1.0 - x) >= 0.0;
  }

  /** Dividing by `s` and multiplying by it again gives the value back. */
  lemma DivideThenMultiply(a: real, s: real)
    requires s != 0.0
    ensures (a / s) * s == a
  {
  }

  lemma NonNegativeQuotient(a: real, s: real)
    requires a >= 0.0 && s > 0.0
    ensures a / s >= 0.0
  {
  }

  /** Two non-negative parts of a positive total, each divided by the
      total, are non-negative shares that add up to 1. */
  lemma SharesOfTotal(a: real, b: real)
    requires a >= 0.0 && b >= 0.0 && a + b > 0.0
    ensures a / (a + b) >= 0.0 && b / (a + b) >= 0.0
    ensures a / (a + b) + b / (a + b) == 1.0
  {
    var s := a + b;
    assert a / s + b / s == (a + b) / s;
  }

  /** `f64::clamp(lo, hi)`. */
  function Clamp(x: real, lo: real, hi: real): (r: real)
    requires lo <= hi
    ensures lo <= r <= hi
    ensures lo <= x <= hi ==> r == x
    ensures x < lo ==> r == lo
    ensures x > hi ==> r == hi
  {
    if x < lo then lo else if x > hi then hi else x
  }

  /** `f64::round`: to the nearest integer, halves away from zero. */
  function RoundHalfAway(x: real): (n: int)
    ensures x - 0.5 <= n as real <= x + 0.5
    ensures x >= 0.0 ==> n >= 0
  {
    if x >= 0.0 then (x + 0.5).Floor else -((-x + 0.5).Floor)
  }

  /** Rounding an integer gives it back. */
  lemma RoundOfInteger(k: int)
    ensures RoundHalfAway(k as real) == k
  {
  }

  /** A rounded value that lies between two integers lies between them too. */
  lemma RoundBetween(x: real, lo: int, hi: int)
    requires lo as real <= x <= hi as real
    ensures lo <= RoundHalfAway(x) <= hi
  {
  }

  /** Sum of a sequence of reals, as `iter().sum()` computes it. */
  function Sum(s: seq<real>): real
  {
    if s == [] then 0.0 else s[0] + Sum(s[1..])
  }

  /** `vec![0.0; n]`. */
  function Zeros(n: nat): (r: seq<real>)
    ensures |r| == n && forall i :: 0 <= i < n ==> r[i] == 0.0
  {
    seq(n, _ => 0.0)
  }

  /** All entries are non-negative. */
  predicate AllNonNegative(s: seq<real>) {
    forall i :: 0 <= i < |s| ==> s[i] >= 0.0
  }

  /** Every entry divided by `k`: `iter().map(|w| w / k)`. */
  function DivideAll(s: seq<real>, k: real): (r: seq<real>)
    requires k != 0.0
    ensures |r| == |s| && forall i :: 0 <= i < |s| ==> r[i] == s[i] / k
  {
    seq(|s|, i requires 0 <= i < |s| => s[i] / k)
  }

  /** Every entry clamped from below at zero: `iter().map(|w| w.max(0.0))`. */
  function ClampNegatives(s: seq<real>): (r: seq<real>)
    ensures |r| == |s| && AllNonNegative(r)
    ensures forall i :: 0 <= i < |s| ==> r[i] == Max(s[i], 0.0)
  {
    seq(|s|, i requires 0 <= i < |s| => Max(s[i], 0.0))
  }

  lemma {:induction false} SumNonNegative(s: seq<real>)
    requires AllNonNegative(s)
    ensures Sum(s) >= 0.0
  {
    if s != [] {
      assert AllNonNegative(s[1..]) by {
        forall i | 0 <= i < |s[1..]| ensures s[1..][i] >= 0.0 { assert s[1..][i] == s[i + 1]; }
      }
      SumNonNegative(s[1..]);
    }
  }

  /** A non-negative sequence sums to at least each of its entries. */
  lemma {:induction false} SumAtLeastEntry(s: seq<real>, k: nat)
    requires AllNonNegative(s) && k < |s|
    ensures s[k] <= Sum(s)
  {
    assert AllNonNegative(s[1..]) by {
      forall i | 0 <= i < |s[1..]| ensures s[1..][i] >= 0.0 { assert s[1..][i] == s[i + 1]; }
    }
    if k == 0 {
      SumNonNegative(s[1..]);
    } else {
      SumAtLeastEntry(s[1..], k - 1);
    }
  }

  lemma {:induction false} SumZeros(n: nat)
    ensures Sum(Zeros(n)) == 0.0
  {
    if n > 0 {
      assert Zeros(n)[1..] == Zeros(n - 1);
      SumZeros(n - 1);
    }
  }

  /** Replacing one entry changes the sum by the difference. */
  lemma {:induction false} SumUpdate(s: seq<real>, k: nat, v: real)
    requires k < |s|
    ensures Sum(s[k := v]) == Sum(s) - s[k] + v
  {
    if k == 0 {
      assert s[k := v][1..] == s[1..];
    } else {
      assert s[k := v][1..] == s[1..][k - 1 := v];
      SumUpdate(s[1..], k - 1, v);
    }
  }

  /** Dividing every entry by `k` divides the sum by `k`. */
  lemma {:induction false} SumDivideAll(s: seq<real>, k: real)
    requires k != 0.0
    ensures Sum(DivideAll(s, k)) == Sum(s) / k
  {
    if s != [] {
      assert DivideAll(s, k)[1..] == DivideAll(s[1..], k);
      SumDivideAll(s[1..], k);
    }
  }

  lemma {:induction false} SumAppend(a: seq<real>, b: seq<real>)
    ensures Sum(a + b) == Sum(a) + Sum(b)
  {
    if a == [] {
      assert a + b == b;
    } else {
      assert (a + b)[1..] == a[1..] + b;
      SumAppend(a[1..], b);
    }
  }

  /** The sum of a prefix grows by the next entry. */
  lemma SumPrefixStep(s: seq<real>, k: nat)
    requires k < |s|
    ensures Sum(s[..k + 1]) == Sum(s[..k]) + s[k]
  {
    assert s[..k + 1] == s[..k] + [s[k]];
    SumAppend(s[..k], [s[k]]);
    assert [s[k]][1..] == [];
  }

  /** Integer square root: the largest `r` with `r * r <= x`. */
  function FloorSqrt(x: real): (r: nat)
    requires x >= 0.0
    ensures (r * r) as real <= x < ((r + 1) * (r + 1)) as real
  {
    FloorSqrtFrom(x, 0)
  }

  function FloorSqrtFrom(x: real, k: nat): (r: nat)
    requires (k * k) as real <= x
    ensures (r * r) as real <= x < ((r + 1) * (r + 1)) as real
    decreases x.Floor - k
  {
    if ((k + 1) * (k + 1)) as real > x then k
    else
      assert k <= k * k || k == 0;
      FloorSqrtFrom(x, k + 1)
  }
}
