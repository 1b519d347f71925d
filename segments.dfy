/** The hull's rows and everything about them that only reads: tangent
    intersections, the breakpoint invariant, the log-space accumulation of
    segment integrals, the binary search over the cumulative probabilities,
    the lower hull (squeeze) and the accept/reject decision. A hull's live
    part is written `s: seq<HullSegment>`, row `k` for support point `k`. */
module Segments {
  import opened Doubles

  const HULL_SAMPLE_ACCEPT: int := 1
  const HULL_SAMPLE_REJECT: int := 0

  /** One row of the hull: the support point `leftX` with its log-density
      `hX` and derivative `hPrimeX`, the right end `z` of the interval on
      which this point's tangent is the upper hull, the log of that
      interval's integral and of the running sum up to it, and both
      normalised by the total. */
  datatype HullSegment = HullSegment(
    leftX: real, hX: real, hPrimeX: real, z: Double,
    rawIntegral: Double, rawCumIntegral: Double, prob: Double, cumProb: Double)

  const EmptySegment := HullSegment(0.0, 0.0, 0.0, Fin(0.0), Fin(0.0), Fin(0.0), Fin(0.0), Fin(0.0))

  /** The floating-point routines the hull calls and that are not modelled:
      `logspaceAdd(a, b) = log(exp(a) + exp(b))`, the closed-form log
      integral of one segment's exponentiated tangent (arguments: the point,
      its log-density and derivative, the segment's right end, its left end,
      the hull maximum), `log`, and the inversion of the exponential within
      a segment (arguments: the point, its log-density and derivative, the
      segment's left end, the log cumulative probability before it, the log
      total integral, the hull maximum, the uniform draw). */
  datatype Numerics = Numerics(
    logspaceAdd: (Double, Double) -> Double,
    integrate: (real, real, real, Double, Double, Double) -> Double,
    log: real -> Double,
    invert: (real, real, real, Double, Double, Double, Double, real) -> real)

  /** The value at `t` of the tangent line through the row's support point. */
  function TangentAt(s: HullSegment, t: real): real
  {
    s.hX + (t - s.leftX) * s.hPrimeX
  }

  /** The `z` that `setZcoord` gives the left of two neighbouring rows. */
  function Intersection(l: HullSegment, r: HullSegment): real
  {
    TangentIntersection(l.leftX, l.hX, l.hPrimeX, r.leftX, r.hX, r.hPrimeX)
  }

  /** The formula of `setZcoord` on the two support points' coordinates. */
  function TangentIntersection(xj: real, hxj: real, hpxj: real, xj1: real, hxj1: real, hpxj1: real): real
  {
    if hpxj - hpxj1 > 0.0 then
      (hxj1 - hxj - xj1 * hpxj1 + xj * hpxj) / (hpxj - hpxj1)
    else
      (hxj + hxj1) / 2.0
  }

  /** When the derivative drops from the left point to the right one, both
      tangents take the same value at the intersection; otherwise it falls
      back to the mean of the two log-density values. */
  lemma TangentsMeet(l: HullSegment, r: HullSegment)
    ensures l.hPrimeX - r.hPrimeX > 0.0 ==>
              TangentAt(l, Intersection(l, r)) == TangentAt(r, Intersection(l, r))
    ensures l.hPrimeX - r.hPrimeX <= 0.0 ==> Intersection(l, r) == (l.hX + r.hX) / 2.0
  {
    var d := l.hPrimeX - r.hPrimeX;
    if d > 0.0 {
      var n := r.hX - l.hX - r.leftX * r.hPrimeX + l.leftX * l.hPrimeX;
      var z := Intersection(l, r);
      assert z * d == n;
      assert (z - l.leftX) * l.hPrimeX == z * l.hPrimeX - l.leftX * l.hPrimeX;
      assert (z - r.leftX) * r.hPrimeX == z * r.hPrimeX - r.leftX * r.hPrimeX;
      assert z * d == z * l.hPrimeX - z * r.hPrimeX;
    }
  }

  /** When each tangent lies on or above the other support point (as it
      does for a concave log-density), the tangents meet between the two
      support points. */
  lemma IntersectionBetween(l: HullSegment, r: HullSegment)
    requires l.hPrimeX - r.hPrimeX > 0.0
    requires TangentAt(l, r.leftX) >= r.hX && TangentAt(r, l.leftX) >= l.hX
    ensures l.leftX <= Intersection(l, r) <= r.leftX
  {
    var d := l.hPrimeX - r.hPrimeX;
    var z := Intersection(l, r);
    TangentsMeet(l, r);
    // z - x_l == (h_r - h_l - (x_r - x_l) h'_r) / d and
    // x_r - z == (h_l - h_r + (x_r - x_l) h'_l) / d.
    assert (z - l.leftX) * d == r.hX - l.hX - (r.leftX - l.leftX) * r.hPrimeX;
    assert (r.leftX - z) * d == l.hX - r.hX + (r.leftX - l.leftX) * l.hPrimeX;
    NonnegativeFactor(z - l.leftX, d);
    NonnegativeFactor(r.leftX - z, d);
  }

  /** A product with a positive factor has the sign of the other factor. */
  lemma NonnegativeFactor(a: real, d: real)
    requires d > 0.0 && a * d >= 0.0
    ensures a >= 0.0
  {
    assert a == (a * d) / d;
  }

  /** The breakpoint invariant: every row but the last ends where its tangent
      meets its right neighbour's, and the last row extends to +infinity. */
  ghost predicate Breakpoints(s: seq<HullSegment>)
  {
    && |s| > 0
    && (forall k :: 0 <= k < |s| - 1 ==> s[k].z == Fin(Intersection(s[k], s[k + 1])))
    && s[|s| - 1].z == PosInf
  }

  /** The left end of row `k`'s interval: zero for the first row. */
  function ZPrev(s: seq<HullSegment>, k: int): Double
    requires 0 <= k < |s|
  {
    if k == 0 then Fin(0.0) else s[k - 1].z
  }

  /** `integrateSegment(hull[k], z_prev)`. */
  function SegmentIntegral(ops: Numerics, s: seq<HullSegment>, k: int, hullMax: Double): Double
    requires 0 <= k < |s|
  {
    ops.integrate(s[k].leftX, s[k].hX, s[k].hPrimeX, s[k].z, ZPrev(s, k), hullMax)
  }

  /** The left fold of `logspaceAdd` over the raw integrals of rows `0..k`,
      starting from `-infinity`, each step adding the new segment first. */
  function CumIntegral(ops: Numerics, s: seq<HullSegment>, k: int): Double
    requires 0 <= k < |s|
  {
    ops.logspaceAdd(s[k].rawIntegral, if k == 0 then NegInf else CumIntegral(ops, s, k - 1))
  }

  /** The fold up to `k` depends on the raw integrals of rows `0..k` only. */
  lemma {:induction false} CumIntegralPrefix(ops: Numerics, s: seq<HullSegment>, t: seq<HullSegment>, k: int)
    requires 0 <= k < |s| && k < |t|
    requires forall j :: 0 <= j <= k ==> s[j].rawIntegral == t[j].rawIntegral
    ensures CumIntegral(ops, s, k) == CumIntegral(ops, t, k)
  {
    if k > 0 {
      CumIntegralPrefix(ops, s, t, k - 1);
    }
  }

  /** Row `k` holds its own segment integral and the running sum up to it. */
  ghost predicate IntegratedAt(ops: Numerics, s: seq<HullSegment>, hullMax: Double, k: int)
    requires 0 <= k < |s|
  {
    && s[k].rawIntegral == SegmentIntegral(ops, s, k, hullMax)
    && s[k].rawCumIntegral == CumIntegral(ops, s, k)
  }

  /** The total log integral of the upper hull: the last running sum. */
  function Total(s: seq<HullSegment>): Double
    requires |s| > 0
  {
    s[|s| - 1].rawCumIntegral
  }

  /** What `normalizeHull` establishes: every row integrated, and `prob`,
      `cumProb` the raw values less the total. */
  ghost predicate Normalized(ops: Numerics, s: seq<HullSegment>, hullMax: Double)
  {
    && |s| > 0
    && (forall k :: 0 <= k < |s| ==> IntegratedAt(ops, s, hullMax, k))
    && (forall k :: 0 <= k < |s| ==>
          s[k].prob == Sub(s[k].rawIntegral, Total(s))
          && s[k].cumProb == Sub(s[k].rawCumIntegral, Total(s)))
  }

  /** Two rows agree on the support point and breakpoint. */
  predicate SameShape(a: HullSegment, b: HullSegment)
  {
    a.leftX == b.leftX && a.hX == b.hX && a.hPrimeX == b.hPrimeX && a.z == b.z
  }

  /** A normalised hull is determined by its support points and breakpoints:
      the incremental renormalisation after an insert and a full
      normalisation give the same rows. */
  lemma {:induction false} NormalizedUnique(ops: Numerics, s: seq<HullSegment>, t: seq<HullSegment>, hullMax: Double)
    requires |s| == |t|
    requires forall k :: 0 <= k < |s| ==> SameShape(s[k], t[k])
    requires Normalized(ops, s, hullMax) && Normalized(ops, t, hullMax)
    ensures s == t
  {
    forall k | 0 <= k < |s|
      ensures s[k].rawIntegral == t[k].rawIntegral
    {
      assert IntegratedAt(ops, s, hullMax, k) && IntegratedAt(ops, t, hullMax, k);
    }
    forall k | 0 <= k < |s|
      ensures s[k] == t[k]
    {
      assert IntegratedAt(ops, s, hullMax, k) && IntegratedAt(ops, t, hullMax, k);
      CumIntegralPrefix(ops, s, t, k);
      CumIntegralPrefix(ops, s, t, |s| - 1);
      assert IntegratedAt(ops, s, hullMax, |s| - 1) && IntegratedAt(ops, t, hullMax, |s| - 1);
    }
  }

  /** Two rows agree on the support point. */
  predicate SamePoint(a: HullSegment, b: HullSegment)
  {
    a.leftX == b.leftX && a.hX == b.hX && a.hPrimeX == b.hPrimeX
  }

  /** The tangent intersection reads the two support points only. */
  lemma IntersectionOfPoints(l: HullSegment, r: HullSegment, l': HullSegment, r': HullSegment)
    requires SamePoint(l, l') && SamePoint(r, r')
    ensures Intersection(l, r) == Intersection(l', r')
  {
  }

  /** The breakpoint invariant is about support points and breakpoints only. */
  lemma BreakpointsFrame(s: seq<HullSegment>, t: seq<HullSegment>)
    requires |s| == |t| && forall k :: 0 <= k < |s| ==> SameShape(s[k], t[k])
    requires Breakpoints(s)
    ensures Breakpoints(t)
  {
    forall k | 0 <= k < |t| - 1
      ensures t[k].z == Fin(Intersection(t[k], t[k + 1]))
    {
      IntersectionOfPoints(s[k], s[k + 1], t[k], t[k + 1]);
    }
  }

  /** An integrated row stays integrated when the rows up to it keep their
      support points, breakpoints and raw integrals, and it keeps its
      running sum. */
  lemma IntegratedFrame(ops: Numerics, s: seq<HullSegment>, t: seq<HullSegment>, hullMax: Double, k: int)
    requires 0 <= k < |s| && k < |t|
    requires forall j :: 0 <= j <= k ==> SameShape(s[j], t[j]) && s[j].rawIntegral == t[j].rawIntegral
    requires t[k].rawCumIntegral == s[k].rawCumIntegral
    requires IntegratedAt(ops, s, hullMax, k)
    ensures IntegratedAt(ops, t, hullMax, k)
  {
    CumIntegralPrefix(ops, s, t, k);
  }

  /** Where `insertSegment` puts the new point: right of the origin row when
      the origin's support point is below it, otherwise in the origin's place. */
  function InsertIndex(s: seq<HullSegment>, origin: int, xNew: real): (i: int)
    requires 0 <= origin < |s|
    ensures i == origin || i == origin + 1
    ensures i == origin + 1 <==> s[origin].leftX < xNew
  {
    if s[origin].leftX < xNew then origin + 1 else origin
  }

  /** The rows after `insertSegment` has shifted the rows from the origin
      on one place right and written the new point over the copy at the
      insert index; the copy keeps the origin row's other fields. */
  function Inserted(s: seq<HullSegment>, origin: int, x: real, h: real, hp: real): (r: seq<HullSegment>)
    requires 0 <= origin < |s|
    ensures |r| == |s| + 1
    ensures var i := InsertIndex(s, origin, x);
            && (forall k :: 0 <= k < i ==> r[k] == s[k])
            && r[i] == s[origin].(leftX := x, hX := h, hPrimeX := hp)
            && (forall k :: i < k < |r| ==> r[k] == s[k - 1])
  {
    var i := InsertIndex(s, origin, x);
    s[..i] + [s[origin].(leftX := x, hX := h, hPrimeX := hp)] + s[i..]
  }

  /** After the insert, every pair of neighbours that does not involve the
      new row still meets at its old breakpoint, and the last row still
      extends to +infinity unless the new row is last. */
  lemma InsertedBreakpointsAway(s: seq<HullSegment>, origin: int, x: real, h: real, hp: real)
    requires Breakpoints(s) && 0 <= origin < |s|
    ensures var t, i := Inserted(s, origin, x, h, hp), InsertIndex(s, origin, x);
      && |t| == |s| + 1
      && (forall k :: 0 <= k < |t| - 1 && k != i - 1 && k != i ==>
            t[k].z == Fin(Intersection(t[k], t[k + 1])))
      && (i != |t| - 1 ==> t[|t| - 1].z == PosInf)
  {
    var t, i := Inserted(s, origin, x, h, hp), InsertIndex(s, origin, x);
    assert forall k :: 0 <= k < i ==> t[k] == s[k];
    assert forall k :: i < k < |t| ==> t[k] == s[k - 1];
    forall k | 0 <= k < |t| - 1 && k != i - 1 && k != i
      ensures t[k].z == Fin(Intersection(t[k], t[k + 1]))
    {
      if k < i - 1 {
        assert t[k] == s[k] && t[k + 1] == s[k + 1];
      } else {
        assert t[k] == s[k - 1] && t[k + 1] == s[k];
      }
    }
  }

  /** Once the two breakpoints around the new row are recomputed, the
      inserted rows satisfy the breakpoint invariant again. */
  lemma InsertedRepaired(s: seq<HullSegment>, origin: int, x: real, h: real, hp: real, u: seq<HullSegment>)
    requires Breakpoints(s) && 0 <= origin < |s|
    requires var t, i := Inserted(s, origin, x, h, hp), InsertIndex(s, origin, x);
      && |u| == |t|
      && (forall k :: 0 <= k < |u| ==> u[k] == t[k].(z := u[k].z))
      && (forall k :: 0 <= k < |u| && k != i - 1 && k != i ==> u[k] == t[k])
      && (0 < i ==> u[i - 1].z == Fin(Intersection(u[i - 1], u[i])))
      && (i < |u| - 1 ==> u[i].z == Fin(Intersection(u[i], u[i + 1])))
      && (i == |u| - 1 ==> u[i].z == PosInf)
    ensures Breakpoints(u)
  {
    var t, i := Inserted(s, origin, x, h, hp), InsertIndex(s, origin, x);
    InsertedBreakpointsAway(s, origin, x, h, hp);
    forall k | 0 <= k < |u| - 1
      ensures u[k].z == Fin(Intersection(u[k], u[k + 1]))
    {
      if k != i - 1 && k != i {
        IntersectionOfPoints(t[k], t[k + 1], u[k], u[k + 1]);
      }
    }
    if i != |u| - 1 {
      assert u[|u| - 1] == t[|u| - 1];
    }
  }

  /** Rows that an operation leaves untouched, before the first one it
      changes, keep their integrals. */
  lemma PrefixIntegrated(ops: Numerics, s: seq<HullSegment>, u: seq<HullSegment>, hullMax: Double, n: int)
    requires Normalized(ops, s, hullMax)
    requires n <= |s| && n <= |u|
    requires forall k :: 0 <= k < n ==> u[k] == s[k]
    ensures forall k :: 0 <= k < n ==> IntegratedAt(ops, u, hullMax, k)
  {
    forall k | 0 <= k < n
      ensures IntegratedAt(ops, u, hullMax, k)
    {
      IntegratedFrame(ops, s, u, hullMax, k);
    }
  }

  /** `reset` keeps the first two rows as they are. Once the hull has more
      than two rows, the second row's breakpoint is the finite intersection
      with the third, so the two rows left live break the invariant that the
      last row extends to +infinity. */
  lemma ResetLeavesFiniteBreakpoint(s: seq<HullSegment>)
    requires Breakpoints(s) && |s| > 2
    ensures s[..2][1].z.Fin?
    ensures !Breakpoints(s[..2])
  {
    assert s[..2][1] == s[1];
    assert s[1].z == Fin(Intersection(s[1], s[2]));
  }

  /** Inserting a point strictly between the origin's neighbours and
      different from the origin's own point keeps the support points
      strictly increasing. */
  lemma InsertedIncreasing(s: seq<HullSegment>, origin: int, x: real, h: real, hp: real)
    requires StrictlyIncreasing(s) && 0 <= origin < |s|
    requires origin > 0 ==> s[origin - 1].leftX < x
    requires origin < |s| - 1 ==> x < s[origin + 1].leftX
    requires x != s[origin].leftX
    ensures StrictlyIncreasing(Inserted(s, origin, x, h, hp))
  {
    var t, i := Inserted(s, origin, x, h, hp), InsertIndex(s, origin, x);
    assert forall k :: 0 <= k < i ==> t[k] == s[k];
    assert forall k :: i < k < |t| ==> t[k] == s[k - 1];
    assert t[i].leftX == x;
    // Every point left of the new one is below it, every point right above.
    assert forall k :: 0 <= k < i ==> s[k].leftX < x by {
      forall k | 0 <= k < i ensures s[k].leftX < x {
        if i == origin + 1 {
          assert s[k].leftX <= s[origin].leftX < x;
        } else {
          assert s[k].leftX <= s[origin - 1].leftX;
        }
      }
    }
    assert forall k :: i <= k < |s| ==> x < s[k].leftX by {
      forall k | i <= k < |s| ensures x < s[k].leftX {
        if i == origin {
          assert x < s[origin].leftX <= s[k].leftX;
        } else {
          assert s[origin + 1].leftX <= s[k].leftX;
        }
      }
    }
  }

  /** `cum` does not decrease on the index range `lo..hi`. */
  ghost predicate NondecreasingOn(cum: seq<Double>, lo: int, hi: int)
    requires 0 <= lo && hi < |cum|
  {
    forall i, j :: lo <= i < j <= hi ==> Le(cum[i], cum[j])
  }

  /** `argBinarySearch`: an index in `lower..upper` whose cumulative value
      exceeds `logU`, or `upper`. On a nondecreasing range it is the least
      such index. */
  function ArgBinarySearch(cum: seq<Double>, logU: Double, lower: int, upper: int): (r: int)
    requires 0 <= lower <= upper < |cum|
    ensures lower <= r <= upper
    ensures r == upper || Lt(logU, cum[r])
    ensures NondecreasingOn(cum, lower, upper) ==>
              forall j :: lower <= j < r ==> !Lt(logU, cum[j])
    decreases upper - lower
  {
    var mid := (lower + upper) / 2;
    if mid == lower then
      (if Lt(logU, cum[lower]) then lower else upper)
    else if Lt(logU, cum[mid]) then
      ArgBinarySearch(cum, logU, lower, mid)
    else
      var r := ArgBinarySearch(cum, logU, mid, upper);
      assert NondecreasingOn(cum, lower, upper) ==>
               forall j :: lower <= j < mid ==> !Lt(logU, cum[j]) by {
        if NondecreasingOn(cum, lower, upper) {
          forall j | lower <= j < mid
            ensures !Lt(logU, cum[j])
          {
            assert Le(cum[j], cum[mid]);
          }
        }
      }
      r
  }

  /** The cumulative-probability column of the live rows. */
  function CumProbs(s: seq<HullSegment>): (c: seq<Double>)
    ensures |c| == |s| && forall k :: 0 <= k < |s| ==> c[k] == s[k].cumProb
  {
    seq(|s|, k requires 0 <= k < |s| => s[k].cumProb)
  }

  /** `inverseCdf(p, seg_idx)`: the segment is chosen by binary search of
      `log p` over the cumulative probabilities, the abscissa within it by
      the (unmodelled) exponential inversion. */
  function InverseCdf(ops: Numerics, s: seq<HullSegment>, hullMax: Double, p: real): (r: (real, int))
    requires |s| > 0
    ensures 0 <= r.1 < |s|
    ensures r.1 == |s| - 1 || Lt(ops.log(p), s[r.1].cumProb)
    ensures NondecreasingOn(CumProbs(s), 0, |s| - 1) ==>
              forall j :: 0 <= j < r.1 ==> !Lt(ops.log(p), s[j].cumProb)
  {
    var seg := ArgBinarySearch(CumProbs(s), ops.log(p), 0, |s| - 1);
    var zPrev := if seg == 0 then Fin(0.0) else s[seg - 1].z;
    var cumPrev := if seg == 0 then NegInf else s[seg - 1].cumProb;
    var x := ops.invert(s[seg].leftX, s[seg].hX, s[seg].hPrimeX, zPrev, cumPrev,
                        s[|s| - 1].rawCumIntegral, hullMax, p);
    (x, seg)
  }

  /** The chord through two support points, evaluated at `t`, in
      point-slope form. */
  function Chord(a: HullSegment, b: HullSegment, t: real): real
    requires a.leftX != b.leftX
  {
    a.hX + (t - a.leftX) * ((b.hX - a.hX) / (b.leftX - a.leftX))
  }

  /** The support points of the rows strictly increase. */
  ghost predicate StrictlyIncreasing(s: seq<HullSegment>)
  {
    forall i, j :: 0 <= i < j < |s| ==> s[i].leftX < s[j].leftX
  }

  /** The lower hull (squeeze) at `xTrial`, seen from row `seg`: the chord to
      the left neighbour when `xTrial` is at or left of the support point,
      to the right neighbour when at or right of it, and `-infinity` beyond
      the first or last support point. */
  function LowerHull(s: seq<HullSegment>, seg: int, xTrial: real): (r: Double)
    requires 0 <= seg < |s|
    ensures xTrial < s[seg].leftX && seg == 0 ==> r == NegInf
    ensures xTrial > s[seg].leftX && seg == |s| - 1 ==> r == NegInf
  {
    var x, hx := s[seg].leftX, s[seg].hX;
    if xTrial <= x && seg > 0 then
      var xl, hl := s[seg - 1].leftX, s[seg - 1].hX;
      Quotient((x - xTrial) * hl + (xTrial - xl) * hx, x - xl)
    else if xTrial >= x && seg < |s| - 1 then
      var xu, hu := s[seg + 1].leftX, s[seg + 1].hX;
      Quotient((xu - xTrial) * hx + (xTrial - x) * hu, xu - x)
    else
      NegInf
  }

  /** Between the first and last support point the lower hull is the chord
      through the support point and the neighbour on `xTrial`'s side. */
  lemma LowerHullIsChord(s: seq<HullSegment>, seg: int, xTrial: real)
    requires StrictlyIncreasing(s) && 0 <= seg < |s|
    ensures xTrial <= s[seg].leftX && seg > 0 ==>
              LowerHull(s, seg, xTrial) == Fin(Chord(s[seg - 1], s[seg], xTrial))
    ensures s[seg].leftX <= xTrial && seg < |s| - 1 && !(xTrial == s[seg].leftX && seg > 0) ==>
              LowerHull(s, seg, xTrial) == Fin(Chord(s[seg], s[seg + 1], xTrial))
  {
    if xTrial <= s[seg].leftX && seg > 0 {
      ChordWeighted(s[seg - 1], s[seg], xTrial);
    } else if s[seg].leftX <= xTrial && seg < |s| - 1 {
      ChordWeighted(s[seg], s[seg + 1], xTrial);
    }
  }

  /** The weighted-average form `squeezeTest` computes is the chord. */
  lemma ChordWeighted(a: HullSegment, b: HullSegment, t: real)
    requires a.leftX < b.leftX
    ensures Quotient((b.leftX - t) * a.hX + (t - a.leftX) * b.hX, b.leftX - a.leftX) == Fin(Chord(a, b, t))
  {
    var d := b.leftX - a.leftX;
    var slope := (b.hX - a.hX) / d;
    assert slope * d == b.hX - a.hX;
    assert Chord(a, b, t) * d == a.hX * d + (t - a.leftX) * (b.hX - a.hX);
    assert (b.leftX - t) * a.hX + (t - a.leftX) * b.hX == a.hX * d + (t - a.leftX) * (b.hX - a.hX);
  }

  /** The chord passes through both of its support points. */
  lemma ChordEnds(a: HullSegment, b: HullSegment)
    requires a.leftX != b.leftX
    ensures Chord(a, b, a.leftX) == a.hX
    ensures Chord(a, b, b.leftX) == b.hX
  {
    var d := b.leftX - a.leftX;
    assert d * ((b.hX - a.hX) / d) == b.hX - a.hX;
  }

  /** At a support point the lower hull equals the log-density there. */
  lemma LowerHullAtSupport(s: seq<HullSegment>, seg: int)
    requires StrictlyIncreasing(s) && |s| >= 2 && 0 <= seg < |s|
    ensures LowerHull(s, seg, s[seg].leftX) == Fin(s[seg].hX)
  {
    LowerHullIsChord(s, seg, s[seg].leftX);
    if seg > 0 {
      ChordEnds(s[seg - 1], s[seg]);
    } else {
      ChordEnds(s[seg], s[seg + 1]);
    }
  }

  /** The outcome of `squeezeTest` and the value its `hx_trial` reference
      parameter holds afterwards. */
  datatype TestOutcome = TestOutcome(outcome: int, hxTrial: real)

  /** `squeezeTest` with `w = log(u)` for the uniform draw `u`: accept when
      `w` is at most the lower hull less the upper hull; otherwise evaluate
      the log-density and accept when `w` is at most it less the upper hull.
      `hxTrial` is overwritten only when the density was evaluated. */
  function SqueezeTest(pdf: real -> real, s: seq<HullSegment>, seg: int, xTrial: real,
                       hxTrial: real, w: Double): (r: TestOutcome)
    requires 0 <= seg < |s|
    ensures r.outcome == HULL_SAMPLE_ACCEPT || r.outcome == HULL_SAMPLE_REJECT
    ensures r.outcome == HULL_SAMPLE_ACCEPT <==>
              Le(w, Sub(LowerHull(s, seg, xTrial), Fin(TangentAt(s[seg], xTrial))))
              || Le(w, Fin(pdf(xTrial) - TangentAt(s[seg], xTrial)))
    ensures r.outcome == HULL_SAMPLE_REJECT ==> r.hxTrial == pdf(xTrial)
  {
    var upr := TangentAt(s[seg], xTrial);
    var lwr := LowerHull(s, seg, xTrial);
    if Le(w, Sub(lwr, Fin(upr))) then
      TestOutcome(HULL_SAMPLE_ACCEPT, hxTrial)
    else
      var hx := pdf(xTrial);
      if Le(w, Fin(hx - upr)) then TestOutcome(HULL_SAMPLE_ACCEPT, hx)
      else TestOutcome(HULL_SAMPLE_REJECT, hx)
  }

  /** Beyond the first or last support point only the exact test decides. */
  lemma SqueezeOutsideIsExact(pdf: real -> real, s: seq<HullSegment>, seg: int, xTrial: real,
                              hxTrial: real, w: Double)
    requires 0 <= seg < |s|
    requires (xTrial < s[seg].leftX && seg == 0) || (xTrial > s[seg].leftX && seg == |s| - 1)
    ensures (SqueezeTest(pdf, s, seg, xTrial, hxTrial, w).outcome == HULL_SAMPLE_ACCEPT)
              <==> Le(w, Fin(pdf(xTrial) - TangentAt(s[seg], xTrial)))
  {
    assert LowerHull(s, seg, xTrial) == NegInf;
    LeNegInf(w);
  }

  /** The squeeze is sound: when the lower hull lies on or below the
      log-density at `xTrial`, every candidate the squeeze accepts is one
      the exact test would accept too. */
  lemma SqueezeImpliesExact(pdf: real -> real, s: seq<HullSegment>, seg: int, xTrial: real, w: Double)
    requires 0 <= seg < |s|
    requires Le(LowerHull(s, seg, xTrial), Fin(pdf(xTrial)))
    requires Le(w, Sub(LowerHull(s, seg, xTrial), Fin(TangentAt(s[seg], xTrial))))
    ensures Le(w, Fin(pdf(xTrial) - TangentAt(s[seg], xTrial)))
  {
    var lwr, upr := LowerHull(s, seg, xTrial), TangentAt(s[seg], xTrial);
    LeTrans(w, Sub(lwr, Fin(upr)), Fin(pdf(xTrial) - upr));
  }
}
