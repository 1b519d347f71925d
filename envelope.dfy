/** The adaptive rejection sampling envelope (Gilks and Wild): a fixed array
    of hull rows of which the first `numSegments` are live, grown by one row
    for every rejected candidate until the array is full. */
module Envelope {
  import opened Doubles
  import opened Segments
  import opened LogDensity

  const MAX_HULL_SIZE: int := 500
  const MAX_HULL_TRIALS: int := 1000

  /** A positive finite double overflows after at most this many doublings,
      which is when the initial search for a negative slope gives up. */
  const MAX_DOUBLINGS: nat := 2098

  /** The log-density the hull is built for: its value, its derivative and
      its initial pair of support points. */
  datatype Density = Density(pdf: real -> real, pdfDeriv: real -> real, init: (real, real))

  /** The hull's view of a valid Gamma log-density: its derivative, and
      the initial pair from `GetInit`, given the value `sqrtAlpha` of
      `sqrt(alpha)`; the log-density itself is a parameter. The right initial
      point already has a negative derivative, so `initialize` never doubles
      it for a Gamma density. */
  function GammaDensity(g: Gamma, sqrtAlpha: real, logPdf: real -> real): (d: Density)
    requires ValidGamma(g) && sqrtAlpha >= 0.0 && sqrtAlpha * sqrtAlpha == g.alpha
    ensures d.init == GetInit(g, sqrtAlpha) && 0.0 < d.init.0 < d.init.1
    ensures d.pdfDeriv(d.init.1) < 0.0
    ensures forall x :: 0.0 < x < Mode(g) ==> d.pdfDeriv(x) > 0.0
  {
    var d := Density(logPdf, x => if x == 0.0 then 0.0 else PdfDeriv(g, x), GetInit(g, sqrtAlpha));
    assert forall x :: 0.0 < x < Mode(g) ==> d.pdfDeriv(x) > 0.0 by {
      forall x | 0.0 < x < Mode(g)
        ensures d.pdfDeriv(x) > 0.0
      {
        PdfDerivSign(g, x);
      }
    }
    d
  }

  /** Trial `t` of `drawSample` on the live rows `before` rejects its
      candidate, and `after` is the hull the rejected candidate leaves: the
      candidate inserted next to its segment, with the log-density and its
      derivative there, unless the array is already full; in both cases with
      the breakpoint invariant and normalised integrals. */
  ghost predicate RejectedTrial(d: Density, ops: Numerics, hullMax: Double, draw: nat -> real, t: nat,
                                before: seq<HullSegment>, after: seq<HullSegment>)
  {
    && 0 < |before| <= MAX_HULL_SIZE
    && var c := InverseCdf(ops, before, hullMax, draw(2 * t));
       && SqueezeTest(d.pdf, before, c.1, c.0, 0.0, ops.log(draw(2 * t + 1))).outcome == HULL_SAMPLE_REJECT
       && (|before| == MAX_HULL_SIZE ==> after == before)
       && (|before| < MAX_HULL_SIZE ==>
             && |after| == |before| + 1
             && forall k :: 0 <= k < |after| ==>
                  SamePoint(after[k], Inserted(before, c.1, c.0, d.pdf(c.0), d.pdfDeriv(c.0))[k]))
       && Breakpoints(after) && Normalized(ops, after, hullMax)
  }

  /** A rejected trial leaves exactly one hull: the inserted support points
      fix the breakpoints, and points and breakpoints fix the normalised
      integrals. */
  lemma RejectedTrialDetermined(d: Density, ops: Numerics, hullMax: Double, draw: nat -> real, t: nat,
                                before: seq<HullSegment>, after: seq<HullSegment>, after': seq<HullSegment>)
    requires RejectedTrial(d, ops, hullMax, draw, t, before, after)
    requires RejectedTrial(d, ops, hullMax, draw, t, before, after')
    ensures after == after'
  {
    if |before| < MAX_HULL_SIZE {
      forall k | 0 <= k < |after|
        ensures SamePoint(after[k], after'[k])
      {
      }
      forall k | 0 <= k < |after|
        ensures SameShape(after[k], after'[k])
      {
        if k < |after| - 1 {
          IntersectionOfPoints(after[k], after[k + 1], after'[k], after'[k + 1]);
        }
      }
      NormalizedUnique(ops, after, after', hullMax);
    }
  }

  /** Every step of `hulls` is a rejected trial: trial `t` turns
      `hulls[t]` into `hulls[t + 1]`. */
  ghost predicate RejectedHistory(d: Density, ops: Numerics, hullMax: Double, draw: nat -> real,
                                  hulls: seq<seq<HullSegment>>)
  {
    forall t :: 0 <= t < |hulls| - 1 ==> RejectedTrial(d, ops, hullMax, draw, t, hulls[t], hulls[t + 1])
  }

  /** A history of rejected trials followed by one more rejected trial is
      again a history of rejected trials. */
  lemma RejectedHistoryExtended(d: Density, ops: Numerics, hullMax: Double, draw: nat -> real,
                                hulls: seq<seq<HullSegment>>, next: seq<HullSegment>)
    requires |hulls| > 0 && RejectedHistory(d, ops, hullMax, draw, hulls)
    requires RejectedTrial(d, ops, hullMax, draw, |hulls| - 1, hulls[|hulls| - 1], next)
    ensures RejectedHistory(d, ops, hullMax, draw, hulls + [next])
  {
    var extended := hulls + [next];
    forall t | 0 <= t < |extended| - 1
      ensures RejectedTrial(d, ops, hullMax, draw, t, extended[t], extended[t + 1])
    {
      if t < |hulls| - 1 {
        assert extended[t] == hulls[t] && extended[t + 1] == hulls[t + 1];
      } else {
        assert extended[t] == hulls[|hulls| - 1] && extended[t + 1] == next;
      }
    }
  }

  /** A prefix of a history of rejected trials is one too. */
  lemma RejectedHistoryPrefix(d: Density, ops: Numerics, hullMax: Double, draw: nat -> real,
                              hulls: seq<seq<HullSegment>>, n: nat)
    requires 0 < n <= |hulls| && RejectedHistory(d, ops, hullMax, draw, hulls)
    ensures RejectedHistory(d, ops, hullMax, draw, hulls[..n])
  {
    forall t | 0 <= t < n - 1
      ensures RejectedTrial(d, ops, hullMax, draw, t, hulls[..n][t], hulls[..n][t + 1])
    {
      assert hulls[..n][t] == hulls[t] && hulls[..n][t + 1] == hulls[t + 1];
    }
  }

  /** Two histories of rejected trials of the same length from the same
      hull are the same history: the draws decide every intermediate hull. */
  lemma {:induction false} RejectedHistoryDetermined(d: Density, ops: Numerics, hullMax: Double,
                                                     draw: nat -> real,
                                                     hulls: seq<seq<HullSegment>>, hulls': seq<seq<HullSegment>>)
    requires |hulls| == |hulls'| > 0 && hulls[0] == hulls'[0]
    requires RejectedHistory(d, ops, hullMax, draw, hulls) && RejectedHistory(d, ops, hullMax, draw, hulls')
    ensures hulls == hulls'
  {
    if |hulls| > 1 {
      var n := |hulls| - 1;
      RejectedHistoryPrefix(d, ops, hullMax, draw, hulls, n);
      RejectedHistoryPrefix(d, ops, hullMax, draw, hulls', n);
      RejectedHistoryDetermined(d, ops, hullMax, draw, hulls[..n], hulls'[..n]);
      assert hulls[n - 1] == hulls[..n][n - 1] == hulls'[..n][n - 1] == hulls'[n - 1];
      RejectedTrialDetermined(d, ops, hullMax, draw, n - 1, hulls[n - 1], hulls[n], hulls'[n]);
      assert hulls == hulls[..n] + [hulls[n]];
      assert hulls' == hulls'[..n] + [hulls'[n]];
    }
  }

  /** `x` doubled `n` times. */
  function Doubled(x: real, n: nat): real
  {
    if n == 0 then x else 2.0 * Doubled(x, n - 1)
  }

  function Min(a: int, b: int): int
  {
    if a <= b then a else b
  }

  /** `upper_hull_max`: for a rising first tangent its value at the first
      breakpoint, otherwise its value at zero. */
  function FirstSegmentMax(s: HullSegment): real
    requires s.z.Fin?
  {
    if s.hPrimeX > 0.0 then s.hX + (s.z.v - s.leftX) * s.hPrimeX else s.hX - s.leftX * s.hPrimeX
  }

  /** The first tangent is at most `FirstSegmentMax` on `[0, z]`, and takes
      that value at one of the two ends. */
  lemma FirstSegmentMaxBounds(s: HullSegment, t: real)
    requires s.z.Fin? && 0.0 <= t <= s.z.v
    ensures TangentAt(s, t) <= FirstSegmentMax(s)
    ensures FirstSegmentMax(s) == TangentAt(s, 0.0) || FirstSegmentMax(s) == TangentAt(s, s.z.v)
  {
    if s.hPrimeX > 0.0 {
      assert (t - s.leftX) * s.hPrimeX <= (s.z.v - s.leftX) * s.hPrimeX;
    } else {
      assert t * s.hPrimeX <= 0.0;
    }
  }

  /** On a two-row hull whose tangents meet at `z0 >= 0` and whose right
      tangent falls, `upper_hull_max` bounds the whole upper hull: the first
      tangent on `[0, z0]` and the second one from `z0` on. */
  lemma TwoRowHullMaxBounds(s0: HullSegment, s1: HullSegment, t: real)
    requires s0.hPrimeX - s1.hPrimeX > 0.0 && s1.hPrimeX < 0.0
    requires s0.z == Fin(Intersection(s0, s1)) && 0.0 <= s0.z.v
    requires 0.0 <= t
    ensures t <= s0.z.v ==> TangentAt(s0, t) <= FirstSegmentMax(s0)
    ensures s0.z.v <= t ==> TangentAt(s1, t) <= FirstSegmentMax(s0)
  {
    var z := s0.z.v;
    FirstSegmentMaxBounds(s0, z);
    TangentsMeet(s0, s1);
    if t <= z {
      FirstSegmentMaxBounds(s0, t);
    } else {
      assert (t - z) * s1.hPrimeX <= 0.0;
      assert TangentAt(s1, t) == TangentAt(s1, z) + (t - z) * s1.hPrimeX;
    }
  }

  class Hull {
    const dist: Density
    const ops: Numerics
    const hull: array<HullSegment>
    var upperHullMax: Double
    var numSegments: int

    ghost predicate Valid()
      reads this
    {
      hull.Length == MAX_HULL_SIZE && 2 <= numSegments <= MAX_HULL_SIZE
    }

    /** The live rows. */
    ghost function Live(): seq<HullSegment>
      reads this, hull
      requires Valid()
    {
      hull[..numSegments]
    }

    /** The hull invariant kept by `initialize` and `insertSegment`: the
        breakpoints are the tangent intersections with +infinity last, and
        the integrals and probabilities are up to date. */
    ghost predicate Consistent()
      reads this, hull
    {
      Valid() && Breakpoints(Live()) && Normalized(ops, Live(), upperHullMax)
    }

    /** The fields the constructor sets before it runs `Initialize`. */
    constructor (d: Density, o: Numerics)
      ensures Valid() && fresh(hull)
      ensures dist == d && ops == o
      ensures numSegments == 2 && upperHullMax == NegInf
    {
      dist, ops := d, o;
      hull := new HullSegment[MAX_HULL_SIZE](_ => EmptySegment);
      upperHullMax := NegInf;
      numSegments := 2;
    }

    /** `reset`: back to two live rows without touching the array. */
    method Reset()
      requires Valid()
      modifies this`numSegments, this`upperHullMax
      ensures Valid() && numSegments == 2 && upperHullMax == NegInf
      ensures hull[..] == old(hull[..])
    {
      numSegments := 2;
      upperHullMax := NegInf;
    }

    method InitializeHullMax()
      requires Valid() && hull[0].z.Fin?
      modifies this`upperHullMax
      ensures upperHullMax == Fin(FirstSegmentMax(hull[0]))
    {
      var x0, hx0, hpx0, z0 := hull[0].leftX, hull[0].hX, hull[0].hPrimeX, hull[0].z.v;
      upperHullMax := Fin(if hpx0 > 0.0 then hx0 + (z0 - x0) * hpx0 else hx0 - x0 * hpx0);
    }

    /** Writes `prob` and `cumProb` of every live row from its raw values and
        the total; the loop both normalising methods end with. */
    method NormalizeProbabilities()
      requires Valid()
      requires forall k :: 0 <= k < numSegments ==> IntegratedAt(ops, Live(), upperHullMax, k)
      modifies hull
      ensures Normalized(ops, Live(), upperHullMax)
      ensures forall k :: 0 <= k < hull.Length ==> SameShape(hull[k], old(hull[k]))
      ensures forall k :: numSegments <= k < hull.Length ==> hull[k] == old(hull[k])
    {
      ghost var s := Live();
      var total := hull[numSegments - 1].rawCumIntegral;
      var k := 0;
      while k < numSegments
        invariant 0 <= k <= numSegments
        invariant forall j :: 0 <= j < numSegments ==>
                    SameShape(hull[j], s[j]) && hull[j].rawIntegral == s[j].rawIntegral
                    && hull[j].rawCumIntegral == s[j].rawCumIntegral
        invariant forall j :: 0 <= j < k ==>
                    hull[j].prob == Sub(hull[j].rawIntegral, total)
                    && hull[j].cumProb == Sub(hull[j].rawCumIntegral, total)
        invariant forall j :: k <= j < hull.Length ==> hull[j] == old(hull[j])
      {
        hull[k] := hull[k].(prob := Sub(hull[k].rawIntegral, total),
                            cumProb := Sub(hull[k].rawCumIntegral, total));
        k := k + 1;
      }
      forall j | 0 <= j < numSegments
        ensures IntegratedAt(ops, Live(), upperHullMax, j)
      {
        IntegratedFrame(ops, s, Live(), upperHullMax, j);
      }
    }

    /** `normalizeHull`: integrates every live row from the first, folding
        the running log sum, then normalises by the total. */
    method NormalizeHull()
      requires Valid()
      modifies hull
      ensures Normalized(ops, Live(), upperHullMax)
      ensures forall k :: 0 <= k < hull.Length ==> SameShape(hull[k], old(hull[k]))
      ensures forall k :: numSegments <= k < hull.Length ==> hull[k] == old(hull[k])
    {
      var cumulativeIntegral := NegInf;
      var zPrev := Fin(0.0);
      var i := 0;
      while i < numSegments
        invariant 0 <= i <= numSegments
        invariant forall k :: 0 <= k < hull.Length ==> SameShape(hull[k], old(hull[k]))
        invariant forall k :: i <= k < hull.Length ==> hull[k] == old(hull[k])
        invariant forall k :: 0 <= k < i ==> IntegratedAt(ops, Live(), upperHullMax, k)
        invariant zPrev == if i == 0 then Fin(0.0) else hull[i - 1].z
        invariant cumulativeIntegral == if i == 0 then NegInf else hull[i - 1].rawCumIntegral
      {
        ghost var before := Live();
        var segmentIntegral := ops.integrate(hull[i].leftX, hull[i].hX, hull[i].hPrimeX, hull[i].z,
                                             zPrev, upperHullMax);
        cumulativeIntegral := ops.logspaceAdd(segmentIntegral, cumulativeIntegral);
        hull[i] := hull[i].(rawIntegral := segmentIntegral, rawCumIntegral := cumulativeIntegral);
        zPrev := hull[i].z;
        forall k | 0 <= k < i
          ensures IntegratedAt(ops, Live(), upperHullMax, k)
        {
          IntegratedFrame(ops, before, Live(), upperHullMax, k);
        }
        AppendIntegrated(before, i);
        i := i + 1;
      }
      NormalizeProbabilities();
    }

    /** One step of the integration loops: row `i`, just given its segment
        integral and the running sum continued from row `i - 1`, is
        integrated. */
    lemma AppendIntegrated(before: seq<HullSegment>, i: int)
      requires Valid() && 0 <= i < numSegments && |before| == numSegments
      requires forall k :: 0 <= k < numSegments && k != i ==> before[k] == hull[k]
      requires SameShape(before[i], hull[i])
      requires i > 0 ==> IntegratedAt(ops, before, upperHullMax, i - 1)
      requires hull[i].rawIntegral == ops.integrate(hull[i].leftX, hull[i].hX, hull[i].hPrimeX, hull[i].z,
                                                    ZPrev(Live(), i), upperHullMax)
      requires hull[i].rawCumIntegral ==
                 ops.logspaceAdd(hull[i].rawIntegral, if i == 0 then NegInf else before[i - 1].rawCumIntegral)
      ensures IntegratedAt(ops, Live(), upperHullMax, i)
    {
      if i > 0 {
        CumIntegralPrefix(ops, before, Live(), i - 1);
      }
    }

    /** `setZcoord(hull[j], hull[j + 1])`. */
    method SetZcoord(j: int)
      requires Valid() && 0 <= j < hull.Length - 1
      modifies hull
      ensures forall k :: 0 <= k < hull.Length && k != j ==> hull[k] == old(hull[k])
      ensures hull[j] == old(hull[j]).(z := Fin(Intersection(old(hull[j]), old(hull[j + 1]))))
    {
      hull[j] := hull[j].(z := Fin(Intersection(hull[j], hull[j + 1])));
    }

    /** `updateZ`: recomputes the breakpoints on both sides of the row at
        `insertIdx`, and makes it extend to +infinity when it is last. */
    method UpdateZ(insertIdx: int)
      requires Valid() && 0 <= insertIdx < numSegments
      modifies hull
      ensures forall k :: 0 <= k < hull.Length && k != insertIdx - 1 && k != insertIdx ==>
                hull[k] == old(hull[k])
      ensures forall k :: 0 <= k < hull.Length ==>
                hull[k] == old(hull[k]).(z := hull[k].z)
      ensures 0 < insertIdx ==> hull[insertIdx - 1].z == Fin(Intersection(hull[insertIdx - 1], hull[insertIdx]))
      ensures insertIdx < numSegments - 1 ==>
                hull[insertIdx].z == Fin(Intersection(hull[insertIdx], hull[insertIdx + 1]))
      ensures insertIdx == numSegments - 1 ==> hull[insertIdx].z == PosInf
    {
      if insertIdx == 0 {
        SetZcoord(insertIdx);
      } else if insertIdx == numSegments - 1 {
        SetZcoord(insertIdx - 1);
        ghost var right := hull[insertIdx];
        hull[insertIdx] := hull[insertIdx].(z := PosInf);
        IntersectionOfPoints(hull[insertIdx - 1], right, hull[insertIdx - 1], hull[insertIdx]);
      } else {
        SetZcoord(insertIdx - 1);
        ghost var right := hull[insertIdx];
        SetZcoord(insertIdx);
        IntersectionOfPoints(hull[insertIdx - 1], right, hull[insertIdx - 1], hull[insertIdx]);
      }
    }

    /** `renormalizeHull`: re-integrates the live rows from the one left of
        `insertIdx` on, continuing the running sum of the rows before it,
        then normalises every row. Its guard `k <= idx_max` never skips a
        row, since `idx_max` is at least the last live index. */
    method RenormalizeHull(insertIdx: int)
      requires Valid() && 0 <= insertIdx < numSegments
      requires forall k :: 0 <= k < insertIdx - 1 ==> IntegratedAt(ops, Live(), upperHullMax, k)
      modifies hull
      ensures Normalized(ops, Live(), upperHullMax)
      ensures forall k :: 0 <= k < hull.Length ==> SameShape(hull[k], old(hull[k]))
      ensures forall k :: numSegments <= k < hull.Length ==> hull[k] == old(hull[k])
    {
      var idxMin := if insertIdx == 0 then 0 else insertIdx - 1;
      var idxMax := if insertIdx < numSegments - 1 then numSegments - 1 else insertIdx + 1;
      var cumulativeIntegral := NegInf;
      var zPrev := Fin(0.0);
      if idxMin > 0 {
        zPrev := hull[idxMin - 1].z;
        cumulativeIntegral := hull[idxMin - 1].rawCumIntegral;
      }
      var k := idxMin;
      while k < numSegments
        invariant idxMin <= k <= numSegments
        invariant forall j :: 0 <= j < hull.Length ==> SameShape(hull[j], old(hull[j]))
        invariant forall j :: 0 <= j < idxMin ==> hull[j] == old(hull[j])
        invariant forall j :: k <= j < hull.Length ==> hull[j] == old(hull[j])
        invariant forall j :: 0 <= j < k ==> IntegratedAt(ops, Live(), upperHullMax, j)
        invariant zPrev == if k == 0 then Fin(0.0) else hull[k - 1].z
        invariant cumulativeIntegral == if k == 0 then NegInf else hull[k - 1].rawCumIntegral
      {
        ghost var before := Live();
        if k <= idxMax && k >= idxMin {
          hull[k] := hull[k].(rawIntegral := ops.integrate(hull[k].leftX, hull[k].hX, hull[k].hPrimeX,
                                                           hull[k].z, zPrev, upperHullMax));
        }
        var segmentIntegral := hull[k].rawIntegral;
        cumulativeIntegral := ops.logspaceAdd(segmentIntegral, cumulativeIntegral);
        hull[k] := hull[k].(rawCumIntegral := cumulativeIntegral);
        zPrev := hull[k].z;
        forall j | 0 <= j < k
          ensures IntegratedAt(ops, Live(), upperHullMax, j)
        {
          IntegratedFrame(ops, before, Live(), upperHullMax, j);
        }
        AppendIntegrated(before, k);
        k := k + 1;
      }
      NormalizeProbabilities();
    }

    /** `insertSegment`: unless the array is full, shifts the rows from the
        origin on one place right, writes the new point left or right of the
        origin's, then repairs the two neighbouring breakpoints and the
        integrals. The new derivative comes from the log-density. */
    method InsertSegment(xNew: real, hNew: real, originIdx: int)
      requires Consistent() && 0 <= originIdx < numSegments
      modifies this`numSegments, hull
      ensures Consistent() && upperHullMax == old(upperHullMax)
      ensures old(numSegments) == MAX_HULL_SIZE ==>
                numSegments == MAX_HULL_SIZE && hull[..] == old(hull[..])
      ensures old(numSegments) < MAX_HULL_SIZE ==> numSegments == old(numSegments) + 1
      ensures old(numSegments) < MAX_HULL_SIZE ==>
                forall k :: 0 <= k < numSegments ==>
                  SamePoint(hull[k], Inserted(old(Live()), originIdx, xNew, hNew, dist.pdfDeriv(xNew))[k])
      ensures forall k :: numSegments <= k < hull.Length ==> hull[k] == old(hull[k])
    {
      if numSegments == MAX_HULL_SIZE {
        return;
      }
      var hpNew := dist.pdfDeriv(xNew);
      ghost var s0 := Live();
      OpenGap(originIdx);
      // determine whether the new point goes left or right of the origin's
      var insertIdx := if hull[originIdx].leftX < xNew then originIdx + 1 else originIdx;
      hull[insertIdx] := hull[insertIdx].(leftX := xNew, hX := hNew, hPrimeX := hpNew);
      assert Live() == Inserted(s0, originIdx, xNew, hNew, hpNew);
      RepairAround(insertIdx, s0, originIdx, xNew, hNew, hpNew);
    }

    /** The end of `insertSegment`: with the new row written, recomputes the
        breakpoints on either side of it and the integrals from there on. */
    method RepairAround(insertIdx: int, ghost s0: seq<HullSegment>, ghost originIdx: int,
                        ghost xNew: real, ghost hNew: real, ghost hpNew: real)
      requires Valid() && 0 <= originIdx < |s0| && Breakpoints(s0) && Normalized(ops, s0, upperHullMax)
      requires insertIdx == InsertIndex(s0, originIdx, xNew)
      requires Live() == Inserted(s0, originIdx, xNew, hNew, hpNew)
      modifies hull
      ensures Consistent()
      ensures forall k :: 0 <= k < hull.Length ==> SamePoint(hull[k], old(hull[k]))
      ensures forall k :: numSegments <= k < hull.Length ==> hull[k] == old(hull[k])
    {
      UpdateZ(insertIdx);
      InsertedRepaired(s0, originIdx, xNew, hNew, hpNew, Live());
      PrefixIntegrated(ops, s0, Live(), upperHullMax, insertIdx - 1);
      ghost var s2 := Live();
      label repaired:
      RenormalizeHull(insertIdx);
      forall k | 0 <= k < |s2|
        ensures SameShape(s2[k], Live()[k])
      {
        assert s2[k] == old@repaired(hull[k]);
      }
      BreakpointsFrame(s2, Live());
    }

    /** The shifting loop of `insertSegment`: every row from the origin on
        moves one place right, so the origin row is duplicated, and the hull
        has one row more. */
    method OpenGap(originIdx: int)
      requires Valid() && numSegments < MAX_HULL_SIZE && 0 <= originIdx < numSegments
      modifies this`numSegments, hull
      ensures Valid() && numSegments == old(numSegments) + 1
      ensures forall j :: 0 <= j <= originIdx ==> hull[j] == old(hull[j])
      ensures forall j :: originIdx < j < numSegments ==> hull[j] == old(hull[j - 1])
      ensures forall j :: numSegments <= j < hull.Length ==> hull[j] == old(hull[j])
    {
      var k := numSegments;
      while k > originIdx
        invariant numSegments == old(numSegments) && originIdx <= k <= numSegments < hull.Length
        invariant forall j :: 0 <= j <= k ==> hull[j] == old(hull[j])
        invariant forall j :: k < j <= numSegments ==> hull[j] == old(hull[j - 1])
        invariant forall j :: numSegments < j < hull.Length ==> hull[j] == old(hull[j])
      {
        hull[k] := hull[k - 1];
        k := k - 1;
      }
      numSegments := numSegments + 1;
    }

    /** `initialize`: the left support point from the density's initial
        pair, the right one doubled until its derivative is negative, then
        the breakpoint, the hull maximum and the integrals. Running out of
        doublings stands for the right point overflowing, which throws. */
    method Initialize() returns (ok: bool, doublings: nat)
      requires Valid()
      modifies this, hull
      ensures Valid()
      ensures doublings <= MAX_DOUBLINGS
      ensures !ok ==> doublings == MAX_DOUBLINGS
      ensures dist.pdfDeriv(dist.init.1) < 0.0 ==> ok && doublings == 0
      ensures ok ==> Consistent() && numSegments == 2
      ensures ok ==> hull[0].leftX == dist.init.0 && hull[0].hX == dist.pdf(dist.init.0)
                     && hull[0].hPrimeX == dist.pdfDeriv(dist.init.0)
      ensures ok ==> hull[1].leftX == Doubled(dist.init.1, doublings) && hull[1].hX == dist.pdf(hull[1].leftX)
                     && hull[1].hPrimeX == dist.pdfDeriv(hull[1].leftX)
      ensures ok ==> hull[1].hPrimeX < 0.0 && hull[1].z == PosInf
      ensures ok ==> upperHullMax == Fin(FirstSegmentMax(hull[0]))
      ensures forall k :: 2 <= k < hull.Length ==> hull[k] == old(hull[k])
    {
      var x0 := dist.init.0;
      hull[0] := hull[0].(leftX := x0, hX := dist.pdf(x0), hPrimeX := dist.pdfDeriv(x0));
      var x1, hpx1;
      ok, doublings, x1, hpx1 := ExtendRightPoint(dist.init.1);
      hull[1] := hull[1].(leftX := x1);
      if !ok {
        return;
      }
      hull[1] := hull[1].(hPrimeX := hpx1, hX := dist.pdf(x1));
      numSegments := 2;
      // set z coordinates
      SetZcoord(0);
      hull[1] := hull[1].(z := PosInf);
      InitializeHullMax();
      ghost var s := Live();
      NormalizeHull();
      BreakpointsFrame(s, Live());
    }

    /** The loop of `initialize` that doubles the right support point,
        starting from `x1`, until the derivative of the log-density there is
        negative; `ok` is false once `MAX_DOUBLINGS` doublings did not
        suffice, where `initialize` finds the point no longer finite and
        throws. The doubled point is kept in a local and stored afterwards. */
    method ExtendRightPoint(x1: real) returns (ok: bool, doublings: nat, x: real, hpx1: real)
      ensures doublings <= MAX_DOUBLINGS && x == Doubled(x1, doublings)
      ensures forall j :: 0 <= j < doublings ==> dist.pdfDeriv(Doubled(x1, j)) >= 0.0
      ensures !ok ==> doublings == MAX_DOUBLINGS
      ensures ok ==> hpx1 < 0.0 && hpx1 == dist.pdfDeriv(x)
      ensures dist.pdfDeriv(x1) < 0.0 ==> ok && doublings == 0
    {
      x := x1;
      hpx1 := dist.pdfDeriv(x1);
      doublings := 0;
      // extend the right point until the derivative is negative
      while hpx1 >= 0.0
        invariant doublings < MAX_DOUBLINGS
        invariant x == Doubled(x1, doublings) && hpx1 == dist.pdfDeriv(x)
        invariant forall j :: 0 <= j < doublings ==> dist.pdfDeriv(Doubled(x1, j)) >= 0.0
        decreases MAX_DOUBLINGS - doublings
      {
        x := x * 2.0;
        doublings := doublings + 1;
        if doublings == MAX_DOUBLINGS {
          return false, doublings, x, hpx1;
        }
        hpx1 := dist.pdfDeriv(x);
      }
      ok := true;
    }

    /** The constructor `Hull(d)`: the fields, then `initialize`; `ok` is
        false where the constructor throws. */
    static method Create(d: Density, o: Numerics) returns (h: Hull, ok: bool, ghost doublings: nat)
      ensures fresh(h) && fresh(h.hull) && h.Valid() && h.dist == d && h.ops == o
      ensures doublings <= MAX_DOUBLINGS && (!ok ==> doublings == MAX_DOUBLINGS)
      ensures ok ==> h.Consistent() && h.numSegments == 2
      ensures ok ==> h.hull[0].leftX == d.init.0 && h.hull[0].hX == d.pdf(d.init.0)
                     && h.hull[0].hPrimeX == d.pdfDeriv(d.init.0)
      ensures ok ==> h.hull[1].leftX == Doubled(d.init.1, doublings) && h.hull[1].hX == d.pdf(h.hull[1].leftX)
                     && h.hull[1].hPrimeX == d.pdfDeriv(h.hull[1].leftX)
      ensures ok ==> h.hull[1].hPrimeX < 0.0 && h.hull[1].z == PosInf
      ensures ok ==> h.upperHullMax == Fin(FirstSegmentMax(h.hull[0]))
      ensures d.pdfDeriv(d.init.1) < 0.0 ==> ok && doublings == 0 && h.hull[1].leftX == d.init.1
    {
      h := new Hull(d, o);
      ok, doublings := h.Initialize();
    }

    /** Trial `t` of `drawSample` on the current hull accepts `x`: the draw
        `draw(2 t)` inverted through the hull gives `x` and its segment, and
        the squeeze test with `w = log(draw(2 t + 1))` accepts it. */
    ghost predicate AcceptsTrial(draw: nat -> real, t: nat, x: real)
      reads this, hull
      requires Valid()
    {
      var candidate := InverseCdf(ops, Live(), upperHullMax, draw(2 * t));
      && x == candidate.0
      && SqueezeTest(dist.pdf, Live(), candidate.1, x, 0.0, ops.log(draw(2 * t + 1))).outcome
           == HULL_SAMPLE_ACCEPT
    }

    /** `drawSample`: up to `MAX_HULL_TRIALS` candidates, each drawn from the
        upper hull and tested; a rejected candidate is inserted into the hull.
        Returns 1 with the first accepted candidate, or 0 once every trial is
        used, which can only happen once the hull is full. */
    method DrawSample(draw: nat -> real, xPrev: real)
      returns (status: int, xSample: real, ghost trials: nat, ghost hulls: seq<seq<HullSegment>>)
      requires Consistent()
      modifies this`numSegments, hull
      ensures Consistent() && upperHullMax == old(upperHullMax)
      ensures status == 1 || status == 0
      ensures trials <= MAX_HULL_TRIALS
      ensures old(numSegments) <= numSegments == Min(old(numSegments) + trials, MAX_HULL_SIZE)
      ensures |hulls| == trials + 1 && hulls[0] == old(Live()) && hulls[trials] == Live()
      ensures RejectedHistory(dist, ops, upperHullMax, draw, hulls)
      ensures status == 1 ==> trials < MAX_HULL_TRIALS && AcceptsTrial(draw, trials, xSample)
      ensures status == 0 ==> trials == MAX_HULL_TRIALS && numSegments == MAX_HULL_SIZE && xSample == xPrev
    {
      var numTrials := 0;
      var hxTrial := 0.0;
      xSample := xPrev;
      hulls := [Live()];
      while numTrials < MAX_HULL_TRIALS
        invariant Consistent() && upperHullMax == old(upperHullMax)
        invariant 0 <= numTrials <= MAX_HULL_TRIALS
        invariant numSegments == Min(old(numSegments) + numTrials, MAX_HULL_SIZE)
        invariant |hulls| == numTrials + 1 && hulls[0] == old(Live()) && hulls[numTrials] == Live()
        invariant RejectedHistory(dist, ops, upperHullMax, draw, hulls)
      {
        var accepted, xTrial;
        accepted, xTrial, hxTrial := Trial(draw, numTrials, hxTrial);
        if accepted {
          xSample := xTrial;
          return 1, xSample, numTrials, hulls;
        }
        RejectedHistoryExtended(dist, ops, upperHullMax, draw, hulls, Live());
        hulls := hulls + [Live()];
        numTrials := numTrials + 1;
      }
      return 0, xSample, numTrials, hulls;
    }

    /** One pass of the loop in `drawSample`: sample the upper hull, apply
        the squeeze test, and insert the candidate when it is rejected. */
    method Trial(draw: nat -> real, t: nat, hxIn: real) returns (accepted: bool, xTrial: real, hxTrial: real)
      requires Consistent()
      modifies this`numSegments, hull
      ensures Consistent() && upperHullMax == old(upperHullMax)
      ensures accepted ==> numSegments == old(numSegments) && Live() == old(Live())
                           && AcceptsTrial(draw, t, xTrial)
      ensures !accepted ==> numSegments == Min(old(numSegments) + 1, MAX_HULL_SIZE)
                            && RejectedTrial(dist, ops, upperHullMax, draw, t, old(Live()), Live())
    {
      // sample the upper hull
      var u := draw(2 * t);
      var candidate := InverseCdf(ops, hull[..numSegments], upperHullMax, u);
      var segmentIdx;
      xTrial, segmentIdx := candidate.0, candidate.1;
      // apply the squeeze test
      var test := SqueezeTest(dist.pdf, hull[..numSegments], segmentIdx, xTrial, hxIn,
                              ops.log(draw(2 * t + 1)));
      hxTrial := test.hxTrial;
      if test.outcome == HULL_SAMPLE_ACCEPT {
        return true, xTrial, hxTrial;
      }
      // sample rejected, insert into the hull
      ghost var before := Live();
      InsertSegment(xTrial, hxTrial, segmentIdx);
      if |before| == MAX_HULL_SIZE {
        assert Live() == before;
      }
      RejectedTrialStep(draw, t, before, Live(), hxIn);
      accepted := false;
    }

    /** One rejected trial of `drawSample`: what the squeeze test and
        `InsertSegment` promise makes up `RejectedTrial`. */
    lemma RejectedTrialStep(draw: nat -> real, t: nat, before: seq<HullSegment>, after: seq<HullSegment>,
                            hxIn: real)
      requires 2 <= |before| <= MAX_HULL_SIZE
      requires var c := InverseCdf(ops, before, upperHullMax, draw(2 * t));
        var test := SqueezeTest(dist.pdf, before, c.1, c.0, hxIn, ops.log(draw(2 * t + 1)));
        && test.outcome == HULL_SAMPLE_REJECT
        && (|before| == MAX_HULL_SIZE ==> after == before)
        && (|before| < MAX_HULL_SIZE ==>
              && |after| == |before| + 1
              && forall k :: 0 <= k < |after| ==>
                   SamePoint(after[k], Inserted(before, c.1, c.0, test.hxTrial, dist.pdfDeriv(c.0))[k]))
      requires Breakpoints(after) && Normalized(ops, after, upperHullMax)
      ensures RejectedTrial(dist, ops, upperHullMax, draw, t, before, after)
    {
    }

    /** The segment scan at the start of `cdf`: it stops at the first row
        whose breakpoint is not below `x`, which exists because the last
        breakpoint is +infinity. */
    method CdfSegment(x: real) returns (segIdx: int)
      requires Valid() && Breakpoints(Live())
      ensures 0 <= segIdx < numSegments
      ensures !Lt(hull[segIdx].z, Fin(x))
      ensures forall j :: 0 <= j < segIdx ==> Lt(hull[j].z, Fin(x))
    {
      segIdx := 0;
      var zUpper := hull[segIdx].z;
      while Lt(zUpper, Fin(x))
        invariant 0 <= segIdx < numSegments
        invariant zUpper == hull[segIdx].z
        invariant forall j :: 0 <= j < segIdx ==> Lt(hull[j].z, Fin(x))
        decreases numSegments - segIdx
      {
        assert segIdx != numSegments - 1 by {
          assert Live()[numSegments - 1] == hull[numSegments - 1];
        }
        segIdx := segIdx + 1;
        zUpper := hull[segIdx].z;
      }
    }
  }
}
