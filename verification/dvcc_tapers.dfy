/** The tapers of dvcc.py are the curves their profile documents, and therefore monotone and in range. */
module DvccTapers {
  import opened Prelude
  import opened Dvcc

  // ---- Straight lines ---------------------------------------------------------------------------

  /** (x, y) lies on the straight line through (a, ya) and (b, yb), between them. */
  predicate OnChord(x: real, y: real, a: real, ya: real, b: real, yb: real) {
    a <= x <= b && a < b && (y - ya) * (b - a) == (yb - ya) * (x - a)
  }

  /**
   * Products are given their own names here, so that their bounds are facts about names and not about multiplication.
   */
  lemma Scale(k: real, x: real, y: real, kx: real, ky: real)
    requires 0.0 <= k && x <= y && kx == k * x && ky == k * y
    ensures kx <= ky
  {
    assert ky - kx == k * (y - x);
  }

  lemma Part(k: real, f: real, s: real)
    requires 0.0 <= k && 0.0 <= f <= 1.0 && s == k * f
    ensures 0.0 <= s <= k
  {
    Scale(k, 0.0, f, 0.0, s);
    Scale(k, f, 1.0, s, k);
  }

  lemma Cancel(k: real, x: real, y: real)
    requires 0.0 < k && k * x <= k * y
    ensures x <= y
  {
  }

  lemma Sign(w: real, rise: real)
    requires 0.0 < w && rise * w <= 0.0
    ensures rise <= 0.0
  {
  }

  lemma NegativeProduct(k: real, t: real)
    requires k <= 0.0 <= t
    ensures k * t <= 0.0
  {
  }

  /** A rise that is the same share of the drop as t is of w. */
  lemma Between(w: real, t: real, rise: real, drop: real)
    requires 0.0 < w && 0.0 <= t <= w && rise * w == drop * t && drop <= 0.0
    ensures drop <= rise <= 0.0
  {
    NegativeProduct(drop, t);
    Sign(w, rise);
    NegativeProduct(drop, w - t);
    assert (drop - rise) * w == drop * (w - t);
    Sign(w, drop - rise);
  }

  lemma ChordLevels(x: real, y: real, a: real, ya: real, b: real, yb: real)
    requires OnChord(x, y, a, ya, b, yb)
    ensures yb <= ya ==> yb <= y <= ya
    ensures ya <= yb ==> ya <= y <= yb
  {
    var w, t, rise, drop := b - a, x - a, y - ya, yb - ya;
    assert rise * w == drop * t;
    if yb <= ya {
      Between(w, t, rise, drop);
    }
    if ya <= yb {
      assert (-rise) * w == (-drop) * t;
      Between(w, t, -rise, -drop);
    }
  }

  lemma SameChord(x: real, y: real, x': real, y': real, a: real, ya: real, b: real, yb: real)
    requires OnChord(x, y, a, ya, b, yb) && OnChord(x', y', a, ya, b, yb)
    ensures (b - a) * (y' - y) == (yb - ya) * (x' - x)
  {
  }

  /** On one falling chord, further right is not higher. */
  lemma ChordFalls(x: real, y: real, x': real, y': real, a: real, ya: real, b: real, yb: real)
    requires OnChord(x, y, a, ya, b, yb) && OnChord(x', y', a, ya, b, yb) && x <= x' && yb <= ya
    ensures y' <= y
  {
    SameChord(x, y, x', y', a, ya, b, yb);
    var w, rise, run, slope := b - a, y' - y, x' - x, yb - ya;
    var drop := run * slope;
    Scale(run, slope, 0.0, drop, 0.0);
    assert w * rise == drop && w * 0.0 == 0.0;
    Cancel(w, rise, 0.0);
  }

  lemma RatioTimes(x: real, a: real, b: real)
    requires a < b
    ensures Ratio(x, a, b) * (b - a) == x - a
  {
  }

  /** The three ways in which the source writes a line are all chords. */
  lemma FallingChord(x: real, y: real, a: real, ya: real, b: real, yb: real)
    requires a < b && a <= x <= b && y == yb + (ya - yb) * (1.0 - Ratio(x, a, b))
    ensures OnChord(x, y, a, ya, b, yb)
  {
    RatioTimes(x, a, b);
    var r, w := Ratio(x, a, b), b - a;
    assert y - ya == (yb - ya) * r;
    assert (y - ya) * w == (yb - ya) * (r * w);
  }

  lemma RisingChord(x: real, y: real, a: real, ya: real, b: real, yb: real)
    requires a < b && a <= x <= b && y == ya + (yb - ya) * Ratio(x, a, b)
    ensures OnChord(x, y, a, ya, b, yb)
  {
    RatioTimes(x, a, b);
    var r, w := Ratio(x, a, b), b - a;
    assert (y - ya) * w == (yb - ya) * (r * w);
  }

  // ---- Curves through given points ---------------------------------------------------------------

  datatype Point = Point(x: real, y: real)

  /** Points from left to right, none higher than the one before. */
  ghost predicate Falling(points: seq<Point>) {
    |points| > 0 && forall i | 0 <= i < |points| - 1 :: points[i].x < points[i + 1].x && points[i].y >= points[i + 1].y
  }

  ghost predicate Rising(points: seq<Point>) {
    |points| > 0 && forall i | 0 <= i < |points| - 1 :: points[i].x < points[i + 1].x && points[i].y <= points[i + 1].y
  }

  /** (x, y) is on the line interpolated through the points, which is level outside them. */
  ghost predicate Follows(points: seq<Point>, x: real, y: real) {
    && |points| > 0
    && (x <= points[0].x ==> y == points[0].y)
    && (points[|points| - 1].x <= x ==> y == points[|points| - 1].y)
    && (forall i | 0 <= i < |points| - 1 && points[i].x <= x <= points[i + 1].x ::
          OnChord(x, y, points[i].x, points[i].y, points[i + 1].x, points[i + 1].y))
  }

  /** Chords pass through their end points and nothing else above and below those. */
  lemma ChordEnds(a: real, ya: real, b: real, yb: real)
    requires a < b
    ensures OnChord(a, ya, a, ya, b, yb) && OnChord(b, yb, a, ya, b, yb)
  {
  }

  lemma ChordStart(x: real, y: real, ya: real, b: real, yb: real)
    requires OnChord(x, y, x, ya, b, yb)
    ensures y == ya
  {
    var w, rise := b - x, y - ya;
    assert rise * w == 0.0;
  }

  lemma ChordEnd(x: real, y: real, a: real, ya: real, yb: real)
    requires OnChord(x, y, a, ya, x, yb)
    ensures y == yb
  {
    var w, gap := x - a, y - yb;
    assert gap * w == 0.0;
  }

  lemma FollowsTwo(a: Point, b: Point, x: real, y: real)
    requires a.x < b.x
    requires x < a.x ==> y == a.y
    requires a.x <= x < b.x ==> OnChord(x, y, a.x, a.y, b.x, b.y)
    requires b.x <= x ==> y == b.y
    ensures Follows([a, b], x, y)
  {
    ChordEnds(a.x, a.y, b.x, b.y);
    if x == a.x {
      ChordStart(x, y, a.y, b.x, b.y);
    }
  }

  /** A curve is extended to the left by a chord that ends where it starts. */
  lemma FollowsMore(a: Point, points: seq<Point>, x: real, y: real)
    requires |points| > 0 && a.x < points[0].x
    requires x < a.x ==> y == a.y
    requires a.x <= x < points[0].x ==> OnChord(x, y, a.x, a.y, points[0].x, points[0].y)
    requires points[0].x <= x ==> Follows(points, x, y)
    requires forall i | 0 <= i < |points| - 1 :: points[i].x < points[i + 1].x
    ensures Follows([a] + points, x, y)
  {
    var b := points[0];
    var all := [a] + points;
    ChordEnds(a.x, a.y, b.x, b.y);
    if x == a.x {
      ChordStart(x, y, a.y, b.x, b.y);
    }
    forall i | 0 <= i < |all| - 1 && all[i].x <= x <= all[i + 1].x
      ensures OnChord(x, y, all[i].x, all[i].y, all[i + 1].x, all[i + 1].y)
    {
      if i > 0 {
        FirstIsLeftmost(points, i - 1);
        assert OnChord(x, y, points[i - 1].x, points[i - 1].y, points[i].x, points[i].y);
      }
    }
    FirstIsLeftmost(points, |points| - 1);
  }

  lemma ThreePoints(a: Point, b: Point, c: Point)
    ensures [a] + [b, c] == [a, b, c]
    ensures a.x < b.x < c.x && a.y >= b.y >= c.y ==> Falling([a, b, c])
    ensures a.x < b.x < c.x && a.y <= b.y <= c.y ==> Rising([a, b, c])
  {
  }

  lemma FourPoints(a: Point, b: Point, c: Point, d: Point)
    ensures [a] + [b, c, d] == [a, b, c, d]
    ensures a.x < b.x < c.x < d.x && a.y >= b.y >= c.y >= d.y ==> Falling([a, b, c, d])
  {
  }

  lemma FirstIsLeftmost(points: seq<Point>, k: nat)
    requires k < |points| && forall i | 0 <= i < |points| - 1 :: points[i].x < points[i + 1].x
    ensures points[0].x <= points[k].x
  {
    if k > 0 {
      FirstIsLeftmost(points, k - 1);
    }
  }

  lemma FollowsThree(a: Point, b: Point, c: Point, x: real, y: real)
    requires a.x < b.x < c.x
    requires x < a.x ==> y == a.y
    requires a.x <= x < b.x ==> OnChord(x, y, a.x, a.y, b.x, b.y)
    requires b.x <= x < c.x ==> OnChord(x, y, b.x, b.y, c.x, c.y)
    requires c.x <= x ==> y == c.y
    ensures Follows([a, b, c], x, y)
  {
    if b.x <= x {
      FollowsTwo(b, c, x, y);
    }
    FollowsMore(a, [b, c], x, y);
    ThreePoints(a, b, c);
  }

  lemma FollowsFour(a: Point, b: Point, c: Point, d: Point, x: real, y: real)
    requires a.x < b.x < c.x < d.x
    requires x < a.x ==> y == a.y
    requires a.x <= x < b.x ==> OnChord(x, y, a.x, a.y, b.x, b.y)
    requires b.x <= x < c.x ==> OnChord(x, y, b.x, b.y, c.x, c.y)
    requires c.x <= x < d.x ==> OnChord(x, y, c.x, c.y, d.x, d.y)
    requires d.x <= x ==> y == d.y
    ensures Follows([a, b, c, d], x, y)
  {
    if b.x <= x {
      FollowsThree(b, c, d, x, y);
    }
    FollowsMore(a, [b, c, d], x, y);
    FourPoints(a, b, c, d);
  }

  lemma FollowsRest(points: seq<Point>, x: real, y: real)
    requires Falling(points) && |points| > 1 && Follows(points, x, y) && points[1].x <= x
    ensures Falling(points[1..]) && Follows(points[1..], x, y)
  {
    if x == points[1].x {
      ChordEnd(x, y, points[0].x, points[0].y, points[1].y);
    }
  }

  lemma FollowsFirst(points: seq<Point>, x: real, y: real)
    requires Falling(points) && |points| > 1 && Follows(points, x, y) && x <= points[1].x
    ensures points[1].y <= y <= points[0].y
  {
    if points[0].x <= x {
      ChordLevels(x, y, points[0].x, points[0].y, points[1].x, points[1].y);
    }
  }

  lemma {:induction false} CurveLevels(points: seq<Point>, x: real, y: real)
    requires Falling(points) && Follows(points, x, y)
    ensures points[|points| - 1].y <= y <= points[0].y
  {
    if |points| > 1 {
      if x <= points[1].x {
        FollowsFirst(points, x, y);
        LastIsLowest(points[1..]);
      } else {
        FollowsRest(points, x, y);
        CurveLevels(points[1..], x, y);
      }
    }
  }

  lemma {:induction false} LastIsLowest(points: seq<Point>)
    requires Falling(points)
    ensures points[|points| - 1].y <= points[0].y
  {
    if |points| > 1 {
      LastIsLowest(points[1..]);
    }
  }

  /** A curve through falling points falls everywhere, joins included. */
  lemma {:induction false} CurveFalls(points: seq<Point>, x: real, y: real, x': real, y': real)
    requires Falling(points) && Follows(points, x, y) && Follows(points, x', y') && x <= x'
    ensures y' <= y
  {
    if |points| > 1 {
      if points[1].x <= x {
        FollowsRest(points, x, y);
        FollowsRest(points, x', y');
        CurveFalls(points[1..], x, y, x', y');
      } else {
        FollowsFirst(points, x, y);
        if points[1].x <= x' {
          FollowsRest(points, x', y');
          CurveLevels(points[1..], x', y');
        } else if points[0].x <= x {
          ChordFalls(x, y, x', y', points[0].x, points[0].y, points[1].x, points[1].y);
        } else {
          FollowsFirst(points, x', y');
        }
      }
    }
  }

  ghost function Negated(points: seq<Point>): seq<Point> {
    seq(|points|, i requires 0 <= i < |points| => Point(points[i].x, -points[i].y))
  }

  lemma NegatedFollows(points: seq<Point>, x: real, y: real)
    requires Rising(points) && Follows(points, x, y)
    ensures Falling(Negated(points)) && Follows(Negated(points), x, -y)
  {
    var mirror := Negated(points);
    forall i | 0 <= i < |mirror| - 1 && mirror[i].x <= x <= mirror[i + 1].x
      ensures OnChord(x, -y, mirror[i].x, mirror[i].y, mirror[i + 1].x, mirror[i + 1].y)
    {
      assert OnChord(x, y, points[i].x, points[i].y, points[i + 1].x, points[i + 1].y);
    }
  }

  lemma CurveRises(points: seq<Point>, x: real, y: real, x': real, y': real)
    requires Rising(points) && Follows(points, x, y) && Follows(points, x', y') && x <= x'
    ensures points[0].y <= y <= y' <= points[|points| - 1].y
  {
    hide Follows, Falling, Rising;
    NegatedFollows(points, x, y);
    NegatedFollows(points, x', y');
    CurveFalls(Negated(points), x, -y, x', -y');
    CurveLevels(Negated(points), x, -y);
    CurveLevels(Negated(points), x', -y');
  }

  // ---- The tapers as the profile documents them --------------------------------------------------

  lemma BalanceShareFits(p: Profile)
    requires p.Valid()
    ensures 0.0 <= p.BalanceShare() <= p.maxChargeCurrent
  {
    hide Profile.TailFits;
    Part(p.maxChargeCurrent, p.chargeBalanceFactor, p.BalanceShare());
  }

  lemma ImbalanceShareFits(p: Profile)
    requires p.Valid()
    ensures 0.0 <= p.ImbalanceShare() <= p.maxChargeCurrent
  {
    hide Profile.TailFits;
    Part(p.maxChargeCurrent, p.imbalanceAggressiveFactor, p.ImbalanceShare());
  }

  lemma TailFitsTheCurve(p: Profile)
    requires p.Valid()
    ensures 0.0 <= p.minChargeCurrent <= p.BalanceShare() <= p.maxChargeCurrent
    ensures p.minChargeCurrent <= p.ImbalanceShare() <= p.maxChargeCurrent
  {
    BalanceShareFits(p);
    ImbalanceShareFits(p);
    var least := Least(p.chargeBalanceFactor, p.imbalanceAggressiveFactor);
    var tail := p.maxChargeCurrent * least;
    Scale(p.maxChargeCurrent, least, p.chargeBalanceFactor, tail, p.BalanceShare());
    Scale(p.maxChargeCurrent, least, p.imbalanceAggressiveFactor, tail, p.ImbalanceShare());
  }

  /** Full current up to the start limit, the balancing share, the tail current, nothing at the cutoff. */
  ghost function VoltageCurve(p: Profile): seq<Point> {
    [Point(p.cellStartLimit, p.maxChargeCurrent),
     Point(p.cellBalanceVoltage, p.BalanceShare()),
     Point(p.cellNearFull, p.minChargeCurrent),
     Point(p.cellCutoff, 0.0)]
  }

  ghost function ImbalanceCurve(p: Profile): seq<Point> {
    [Point(p.imbalanceStartLimit, p.maxChargeCurrent),
     Point(p.imbalanceAggressive, p.ImbalanceShare()),
     Point(p.imbalanceCritical, p.minChargeCurrent)]
  }

  ghost function SocCurve(p: Profile): seq<Point> {
    [Point(p.socReduceStart, p.maxChargeCurrent), Point(100.0, p.SocShare())]
  }

  ghost function DischargeCurve(p: Profile): seq<Point> {
    [Point(p.dischargeCellCutoff, 0.0),
     Point(p.dischargeCellStartLimit, p.LowDischargeShare()),
     Point(p.dischargeCellFullCurrent, p.maxDischargeCurrent)]
  }

  lemma ReducingChord(p: Profile, v: real)
    requires p.Valid() && p.cellStartLimit <= v < p.cellBalanceVoltage
    ensures OnChord(v, CclFromCellVoltage(p, Some(v)), p.cellStartLimit, p.maxChargeCurrent, p.cellBalanceVoltage,
        p.BalanceShare())
  {
    var full, f, rest := p.maxChargeCurrent, p.chargeBalanceFactor,
        1.0 - Ratio(v, p.cellStartLimit, p.cellBalanceVoltage);
    RatioTimes(v, p.cellStartLimit, p.cellBalanceVoltage);
    FallingChord(v, full * f + (full - full * f) * rest, p.cellStartLimit, full, p.cellBalanceVoltage, full * f);
    assert full * (f + (1.0 - f) * rest) == full * f + (full - full * f) * rest;
    if v == p.cellFullCurrent {
      assert rest == 1.0 - 0.0 / (p.cellBalanceVoltage - p.cellStartLimit);
    }
  }

  lemma BalancingChord(p: Profile, v: real)
    requires p.Valid() && p.cellBalanceVoltage <= v < p.cellNearFull
    ensures OnChord(v, CclFromCellVoltage(p, Some(v)), p.cellBalanceVoltage, p.BalanceShare(), p.cellNearFull,
        p.minChargeCurrent)
  {
    FallingChord(v, CclFromCellVoltage(p, Some(v)), p.cellBalanceVoltage, p.BalanceShare(), p.cellNearFull,
        p.minChargeCurrent);
  }

  lemma TailChord(p: Profile, v: real)
    requires p.Valid() && p.cellNearFull <= v < p.cellCutoff
    ensures OnChord(v, CclFromCellVoltage(p, Some(v)), p.cellNearFull, p.minChargeCurrent, p.cellCutoff, 0.0)
  {
    var rest := 1.0 - Ratio(v, p.cellNearFull, p.cellCutoff);
    var ccl := p.minChargeCurrent * rest;
    FallingChord(v, ccl, p.cellNearFull, p.minChargeCurrent, p.cellCutoff, 0.0);
    ChordLevels(v, ccl, p.cellNearFull, p.minChargeCurrent, p.cellCutoff, 0.0);
    assert 0.0 <= ccl;
    assert p.cellFullCurrent < v;
    assert CclFromCellVoltage(p, Some(v)) == if ccl < 0.0 then 0.0 else ccl;
  }

  lemma VoltageTaperFollowsItsCurve(p: Profile, v: real)
    requires p.Valid()
    ensures Follows(VoltageCurve(p), v, CclFromCellVoltage(p, Some(v)))
  {
    if p.cellStartLimit <= v < p.cellBalanceVoltage {
      ReducingChord(p, v);
    } else if p.cellBalanceVoltage <= v < p.cellNearFull {
      BalancingChord(p, v);
    } else if p.cellNearFull <= v < p.cellCutoff {
      TailChord(p, v);
    }
    VoltageTaperEnds(p, v);
    hide CclFromCellVoltage, OnChord, Follows, Profile.TailFits, Profile.BalanceShare;
    var share := p.BalanceShare();
    FollowsFour(Point(p.cellStartLimit, p.maxChargeCurrent), Point(p.cellBalanceVoltage, share),
                Point(p.cellNearFull, p.minChargeCurrent), Point(p.cellCutoff, 0.0), v, CclFromCellVoltage(p, Some(v)));
  }

  lemma VoltageTaperEnds(p: Profile, v: real)
    requires p.Valid()
    ensures v < p.cellStartLimit ==> CclFromCellVoltage(p, Some(v)) == p.maxChargeCurrent
    ensures p.cellCutoff <= v ==> CclFromCellVoltage(p, Some(v)) == 0.0
  {
  }

  lemma SlightImbalanceChord(p: Profile, d: real)
    requires p.Valid() && p.imbalanceStartLimit <= d < p.imbalanceAggressive
    ensures OnChord(d, CclFromImbalance(p, Some(d)), p.imbalanceStartLimit, p.maxChargeCurrent, p.imbalanceAggressive,
        p.ImbalanceShare())
  {
    var full, f, rest := p.maxChargeCurrent, p.imbalanceAggressiveFactor,
        1.0 - Ratio(d, p.imbalanceStartLimit, p.imbalanceAggressive);
    if d == p.imbalanceStartLimit {
      ChordEnds(d, full, p.imbalanceAggressive, full * f);
    } else {
      FallingChord(d, full * f + (full - full * f) * rest, p.imbalanceStartLimit, full, p.imbalanceAggressive,
          full * f);
      assert full * (f + (1.0 - f) * rest) == full * f + (full - full * f) * rest;
    }
  }

  lemma AggressiveImbalanceChord(p: Profile, d: real)
    requires p.Valid() && p.imbalanceAggressive <= d < p.imbalanceCritical
    ensures OnChord(d, CclFromImbalance(p, Some(d)), p.imbalanceAggressive, p.ImbalanceShare(), p.imbalanceCritical,
        p.minChargeCurrent)
  {
    FallingChord(d, CclFromImbalance(p, Some(d)), p.imbalanceAggressive, p.ImbalanceShare(), p.imbalanceCritical,
        p.minChargeCurrent);
  }

  lemma ImbalanceTaperEnds(p: Profile, d: real)
    requires p.Valid()
    ensures d < p.imbalanceStartLimit ==> CclFromImbalance(p, Some(d)) == p.maxChargeCurrent
    ensures p.imbalanceCritical <= d ==> CclFromImbalance(p, Some(d)) == p.minChargeCurrent
  {
  }

  lemma ImbalanceTaperFollowsItsCurve(p: Profile, d: real)
    requires p.Valid()
    ensures Follows(ImbalanceCurve(p), d, CclFromImbalance(p, Some(d)))
  {
    if p.imbalanceStartLimit <= d < p.imbalanceAggressive {
      SlightImbalanceChord(p, d);
    } else if p.imbalanceAggressive <= d < p.imbalanceCritical {
      AggressiveImbalanceChord(p, d);
    }
    ImbalanceTaperEnds(p, d);
    hide CclFromImbalance, OnChord, Follows, Profile.TailFits, Profile.ImbalanceShare;
    var share := p.ImbalanceShare();
    FollowsThree(Point(p.imbalanceStartLimit, p.maxChargeCurrent), Point(p.imbalanceAggressive, share),
                 Point(p.imbalanceCritical, p.minChargeCurrent), d, CclFromImbalance(p, Some(d)));
  }

  lemma SocTaperFollowsItsCurve(p: Profile, soc: real)
    requires p.Valid()
    ensures Follows(SocCurve(p), soc, CclFromSoc(p, Some(soc)))
  {
    var full, f, ccl := p.maxChargeCurrent, p.socReduceFactor, CclFromSoc(p, Some(soc));
    if p.socReduceStart <= soc < 100.0 {
      var r := Ratio(soc, p.socReduceStart, 100.0);
      assert full * (1.0 - r * (1.0 - f)) == full + (full * f - full) * r;
      RisingChord(soc, ccl, p.socReduceStart, full, 100.0, full * f);
    }
    hide CclFromSoc, OnChord;
    FollowsTwo(Point(p.socReduceStart, full), Point(100.0, full * f), soc, ccl);
  }

  lemma LowDischargeChord(p: Profile, v: real)
    requires p.Valid() && p.dischargeCellCutoff <= v < p.dischargeCellStartLimit
    ensures OnChord(v, DclFromCellVoltage(p, Some(v)), p.dischargeCellCutoff, 0.0, p.dischargeCellStartLimit,
        p.LowDischargeShare())
  {
    var full, f, r := p.maxDischargeCurrent, p.dischargeLowFactor,
        Ratio(v, p.dischargeCellCutoff, p.dischargeCellStartLimit);
    if v == p.dischargeCellCutoff {
      ChordEnds(v, 0.0, p.dischargeCellStartLimit, full * f);
    } else {
      assert full * r * f == 0.0 + (full * f - 0.0) * r;
      RisingChord(v, DclFromCellVoltage(p, Some(v)), p.dischargeCellCutoff, 0.0, p.dischargeCellStartLimit, full * f);
    }
  }

  lemma SlightDischargeChord(p: Profile, v: real)
    requires p.Valid() && p.dischargeCellStartLimit <= v < p.dischargeCellFullCurrent
    ensures OnChord(v, DclFromCellVoltage(p, Some(v)), p.dischargeCellStartLimit, p.LowDischargeShare(),
        p.dischargeCellFullCurrent, p.maxDischargeCurrent)
  {
    var full, f, dcl := p.maxDischargeCurrent, p.dischargeLowFactor, DclFromCellVoltage(p, Some(v));
    if v == p.dischargeCellStartLimit {
      RatioTimes(v, p.dischargeCellCutoff, v);
      assert Ratio(v, p.dischargeCellCutoff, v) == 1.0;
      assert dcl == full * f;
      ChordEnds(v, full * f, p.dischargeCellFullCurrent, full);
    } else {
      var r := Ratio(v, p.dischargeCellStartLimit, p.dischargeCellFullCurrent);
      assert full * (f + (1.0 - f) * r) == full * f + (full - full * f) * r;
      RisingChord(v, dcl, p.dischargeCellStartLimit, full * f, p.dischargeCellFullCurrent, full);
    }
  }

  lemma DischargeTaperEnds(p: Profile, v: real)
    requires p.Valid()
    ensures v < p.dischargeCellCutoff ==> DclFromCellVoltage(p, Some(v)) == 0.0
    ensures p.dischargeCellFullCurrent <= v ==> DclFromCellVoltage(p, Some(v)) == p.maxDischargeCurrent
  {
  }

  lemma DischargeTaperFollowsItsCurve(p: Profile, v: real)
    requires p.Valid()
    ensures Follows(DischargeCurve(p), v, DclFromCellVoltage(p, Some(v)))
  {
    if p.dischargeCellCutoff <= v < p.dischargeCellStartLimit {
      LowDischargeChord(p, v);
    } else if p.dischargeCellStartLimit <= v < p.dischargeCellFullCurrent {
      SlightDischargeChord(p, v);
    }
    DischargeTaperEnds(p, v);
    hide DclFromCellVoltage, OnChord, Follows, Profile.TailFits, Profile.LowDischargeShare;
    var share := p.LowDischargeShare();
    FollowsThree(Point(p.dischargeCellCutoff, 0.0), Point(p.dischargeCellStartLimit, share),
                 Point(p.dischargeCellFullCurrent, p.maxDischargeCurrent), v, DclFromCellVoltage(p, Some(v)));
  }

  lemma CurvesAreMonotone(p: Profile)
    requires p.Valid()
    ensures Falling(VoltageCurve(p)) && Falling(ImbalanceCurve(p)) && Falling(SocCurve(p)) && Rising(DischargeCurve(p))
  {
    hide Falling, Rising, Profile.TailFits, Profile.BalanceShare, Profile.ImbalanceShare, Profile.LowDischargeShare;
    hide Profile.SocShare;
    TailFitsTheCurve(p);
    DischargeShareFits(p);
    var share, part := p.BalanceShare(), p.ImbalanceShare();
    FourPoints(Point(p.cellStartLimit, p.maxChargeCurrent), Point(p.cellBalanceVoltage, share),
        Point(p.cellNearFull, p.minChargeCurrent), Point(p.cellCutoff, 0.0));
    ThreePoints(Point(p.imbalanceStartLimit, p.maxChargeCurrent), Point(p.imbalanceAggressive, part),
        Point(p.imbalanceCritical, p.minChargeCurrent));
    ThreePoints(Point(p.dischargeCellCutoff, 0.0), Point(p.dischargeCellStartLimit, p.LowDischargeShare()),
        Point(p.dischargeCellFullCurrent, p.maxDischargeCurrent));
    SocCurveFalls(p);
  }

  lemma SocCurveFalls(p: Profile)
    requires p.Valid()
    ensures Falling(SocCurve(p))
  {
    Part(p.maxChargeCurrent, p.socReduceFactor, p.SocShare());
  }

  lemma DischargeShareFits(p: Profile)
    requires p.Valid()
    ensures 0.0 <= p.LowDischargeShare() <= p.maxDischargeCurrent
  {
    hide Profile.TailFits;
    Part(p.maxDischargeCurrent, p.dischargeLowFactor, p.LowDischargeShare());
  }

  /** A higher cell never raises the charge limit, across every join, and no cell voltage takes it out of range. */
  lemma VoltageTaperFalls(p: Profile, v: real, v': real)
    requires p.Valid() && v <= v'
    ensures 0.0 <= CclFromCellVoltage(p, Some(v')) <= CclFromCellVoltage(p, Some(v)) <= p.maxChargeCurrent
  {
    CurvesAreMonotone(p);
    VoltageTaperFollowsItsCurve(p, v);
    VoltageTaperFollowsItsCurve(p, v');
    hide CclFromCellVoltage, Follows;
    CurveFalls(VoltageCurve(p), v, CclFromCellVoltage(p, Some(v)), v', CclFromCellVoltage(p, Some(v')));
    CurveLevels(VoltageCurve(p), v, CclFromCellVoltage(p, Some(v)));
    CurveLevels(VoltageCurve(p), v', CclFromCellVoltage(p, Some(v')));
  }

  lemma ImbalanceTaperFalls(p: Profile, d: real, d': real)
    requires p.Valid() && d <= d'
    ensures 0.0 <= p.minChargeCurrent <= CclFromImbalance(p, Some(d')) <= CclFromImbalance(p, Some(d))
        <= p.maxChargeCurrent
  {
    CurvesAreMonotone(p);
    ImbalanceTaperFollowsItsCurve(p, d);
    ImbalanceTaperFollowsItsCurve(p, d');
    hide CclFromImbalance, Follows;
    CurveFalls(ImbalanceCurve(p), d, CclFromImbalance(p, Some(d)), d', CclFromImbalance(p, Some(d')));
    CurveLevels(ImbalanceCurve(p), d, CclFromImbalance(p, Some(d)));
    CurveLevels(ImbalanceCurve(p), d', CclFromImbalance(p, Some(d')));
  }

  lemma SocTaperFalls(p: Profile, soc: real, soc': real)
    requires p.Valid() && soc <= soc'
    ensures 0.0 <= CclFromSoc(p, Some(soc')) <= CclFromSoc(p, Some(soc)) <= p.maxChargeCurrent
  {
    CurvesAreMonotone(p);
    SocTaperFollowsItsCurve(p, soc);
    SocTaperFollowsItsCurve(p, soc');
    Part(p.maxChargeCurrent, p.socReduceFactor, p.SocShare());
    hide CclFromSoc, Follows;
    CurveFalls(SocCurve(p), soc, CclFromSoc(p, Some(soc)), soc', CclFromSoc(p, Some(soc')));
    CurveLevels(SocCurve(p), soc, CclFromSoc(p, Some(soc)));
    CurveLevels(SocCurve(p), soc', CclFromSoc(p, Some(soc')));
  }

  lemma DischargeTaperRises(p: Profile, v: real, v': real)
    requires p.Valid() && v <= v'
    ensures 0.0 <= DclFromCellVoltage(p, Some(v)) <= DclFromCellVoltage(p, Some(v')) <= p.maxDischargeCurrent
  {
    CurvesAreMonotone(p);
    DischargeTaperFollowsItsCurve(p, v);
    DischargeTaperFollowsItsCurve(p, v');
    hide DclFromCellVoltage, Follows;
    CurveRises(DischargeCurve(p), v, DclFromCellVoltage(p, Some(v)), v', DclFromCellVoltage(p, Some(v')));
  }

  // ---- Temperature ------------------------------------------------------------------------------

  lemma RatioEnds(a: real, b: real)
    requires a < b
    ensures Ratio(a, a, b) == 0.0 && Ratio(b, a, b) == 1.0
  {
    var w := b - a;
    assert w / w == 1.0;
  }

  lemma RatioRises(x: real, x': real, a: real, b: real)
    requires a < b && x <= x'
    ensures Ratio(x, a, b) <= Ratio(x', a, b)
  {
    RatioTimes(x, a, b);
    RatioTimes(x', a, b);
    var w, fall := b - a, Ratio(x, a, b) - Ratio(x', a, b);
    assert fall * w == x - x';
    Sign(w, fall);
  }

  lemma RatioLevels(x: real, x': real, a: real, b: real)
    requires a < b && a <= x <= x' <= b
    ensures 0.0 <= Ratio(x, a, b) <= Ratio(x', a, b) <= 1.0
  {
    hide Ratio;
    RatioEnds(a, b);
    RatioRises(a, x, a, b);
    RatioRises(x, x', a, b);
    RatioRises(x', b, a, b);
  }

  lemma HotFactorFalls(p: Profile, high: real, high': real)
    requires p.Valid() && p.tempFullCurrentMax <= high <= high' <= p.tempStopChargeHigh
    ensures 0.0 <= HotFactor(p, high') <= HotFactor(p, high) <= 1.0
  {
    hide Profile.TailFits, Ratio;
    RatioLevels(high, high', p.tempFullCurrentMax, p.tempStopChargeHigh);
  }

  lemma HotLimitFalls(p: Profile, high: real, high': real)
    requires p.Valid() && p.tempFullCurrentMax <= high <= high' <= p.tempStopChargeHigh
    ensures 0.0 <= HotLimit(p, high') <= HotLimit(p, high) <= p.maxChargeCurrent
  {
    hide Profile.TailFits, HotFactor;
    HotFactorFalls(p, high, high');
    var k, f, f' := p.maxChargeCurrent, HotFactor(p, high), HotFactor(p, high');
    Part(k, f', HotLimit(p, high'));
    Part(k, f, HotLimit(p, high));
    Scale(k, f', f, HotLimit(p, high'), HotLimit(p, high));
  }

  /** What the cold zone allows at its warm end. */
  function ColdCeiling(p: Profile): real {
    p.maxChargeCurrent * p.coldChargeFactor
  }

  lemma ColdLimitRises(p: Profile, low: real, low': real)
    requires p.Valid() && p.tempStopCharge <= low <= low' <= p.tempFullCurrentMin
    ensures 0.0 <= ColdLimit(p, low) <= ColdLimit(p, low') <= ColdCeiling(p) <= p.maxChargeCurrent
  {
    hide Profile.TailFits, Ratio;
    RatioLevels(low, low', p.tempStopCharge, p.tempFullCurrentMin);
    var k, r, r', c := p.maxChargeCurrent, Ratio(low, p.tempStopCharge, p.tempFullCurrentMin),
        Ratio(low', p.tempStopCharge, p.tempFullCurrentMin), p.coldChargeFactor;
    ColdProducts(k, r, r', c, k * r, k * r', ColdLimit(p, low), ColdLimit(p, low'), ColdCeiling(p));
  }

  lemma ColdProducts(k: real, r: real, r': real, c: real, kr: real, kr': real, x: real, x': real, top: real)
    requires 0.0 <= k && 0.0 <= r <= r' <= 1.0 && 0.0 <= c <= 1.0
    requires kr == k * r && kr' == k * r' && x == kr * c && x' == kr' * c && top == k * c
    ensures 0.0 <= x <= x' <= top <= k
  {
    Part(k, r, kr);
    Part(k, r', kr');
    Part(k, c, top);
    Scale(k, r, r', kr, kr');
    Part(kr, c, x);
    Scale(c, kr, kr', x, x');
    Scale(c, kr', k, x', top);
  }

  /**
   * Too cold or too hot there is no charging; in the cold zone the limit follows the line to the cold share, and in the
   * hot zone the line to nothing, as long as that lies above the least hot share.
   */
  lemma TemperatureTaperFollowsItsCurve(p: Profile, low: real, high: real)
    requires p.Valid()
    ensures
      var ccl, full := CclFromTemperature(p, Some(low), Some(high)), p.maxChargeCurrent;
      if low <= p.tempStopCharge || high >= p.tempStopChargeHigh then ccl == 0.0
      else if low < p.tempFullCurrentMin then
        OnChord(low, ccl, p.tempStopCharge, 0.0, p.tempFullCurrentMin, full * p.coldChargeFactor)
      else if high <= p.tempFullCurrentMax then ccl == full
      else
        || (ccl == full * p.hotChargeMinFactor
            && exists y :: OnChord(high, y, p.tempFullCurrentMax, full, p.tempStopChargeHigh, 0.0) && y <= ccl)
        || (ccl >= full * p.hotChargeMinFactor
            && OnChord(high, ccl, p.tempFullCurrentMax, full, p.tempStopChargeHigh, 0.0))
  {
    hide Profile.TailFits;
    var full := p.maxChargeCurrent;
    if p.tempStopCharge < low < p.tempFullCurrentMin && high < p.tempStopChargeHigh {
      var r, share := Ratio(low, p.tempStopCharge, p.tempFullCurrentMin), full * p.coldChargeFactor;
      assert ColdLimit(p, low) == full * r * p.coldChargeFactor == 0.0 + (share - 0.0) * r;
      RisingChord(low, ColdLimit(p, low), p.tempStopCharge, 0.0, p.tempFullCurrentMin, share);
    } else if p.tempFullCurrentMin <= low && p.tempFullCurrentMax < high < p.tempStopChargeHigh {
      var factor, least := 1.0 - Ratio(high, p.tempFullCurrentMax, p.tempStopChargeHigh), p.hotChargeMinFactor;
      var y := full * factor;
      FallingChord(high, y, p.tempFullCurrentMax, full, p.tempStopChargeHigh, 0.0);
      if factor < least {
        MoreIsMore(full, factor, least, y, full * least);
      } else if least < factor {
        MoreIsMore(full, least, factor, full * least, y);
      }
    }
  }

  /** A reading that is missing limits nothing, but temperatures are taken to be 25 C. */
  lemma MissingReadingsDoNotLimit(p: Profile, temperature: Option<real>, delta: real)
    requires p.Valid()
    ensures CclFromCellVoltage(p, None) == CclFromSoc(p, None) == CclFromImbalance(p, None) == p.maxChargeCurrent
    ensures DclFromCellVoltage(p, None) == p.maxDischargeCurrent
    ensures delta < 0.0 ==> CclFromImbalance(p, Some(delta)) == p.maxChargeCurrent
    ensures CclFromTemperature(p, None, temperature) == CclFromTemperature(p, Some(25.0), temperature)
    ensures CclFromTemperature(p, temperature, None) == CclFromTemperature(p, temperature, Some(25.0))
  {
  }

  predicate Share(x: real) {
    0.0 <= x <= 1.0
  }

  /** A profile is valid exactly when its points rise, its shares are shares, and its tail fits under both tapers. */
  lemma ProfilesExactly(p: Profile)
    ensures p.Valid()
       <==> && p.maxChargeCurrent > 0.0 && p.maxDischargeCurrent > 0.0 && p.cclChangeRate > 0.0
            && p.dischargeCellCutoff > 0.0 && p.dischargeCellStartLimit > p.dischargeCellCutoff
            && p.dischargeCellFullCurrent > p.dischargeCellStartLimit && p.cellFullCurrent > p.dischargeCellFullCurrent
            && p.cellStartLimit >= p.cellFullCurrent && p.cellBalanceVoltage > p.cellStartLimit
            && p.cellNearFull > p.cellBalanceVoltage && p.cellCutoff > p.cellNearFull
            && p.cellMaxVoltage >= p.cellCutoff
            && p.imbalanceStartLimit >= 0.0 && p.imbalanceAggressive > p.imbalanceStartLimit
            && p.imbalanceCritical > p.imbalanceAggressive
            && p.tempStopCharge > -273.15 && p.tempFullCurrentMin > p.tempStopCharge
            && p.tempFullCurrentMax >= p.tempFullCurrentMin && p.tempStopChargeHigh > p.tempFullCurrentMax
            && p.socReduceStart >= 0.0 && p.socReduceStart < 100.0
            && Share(p.chargeBalanceFactor) && Share(p.imbalanceAggressiveFactor) && Share(p.coldChargeFactor)
            && Share(p.hotChargeMinFactor) && Share(p.socReduceFactor) && Share(p.dischargeLowFactor)
            && Share(p.dischargeHotFactor) && p.chargeBalanceFactor != 0.0 && p.imbalanceAggressiveFactor != 0.0
            && p.minChargeCurrent >= 0.0
            && p.minChargeCurrent <= p.BalanceShare() && p.minChargeCurrent <= p.ImbalanceShare()
  {
    hide Profile.TailFits, Profile.BalanceShare, Profile.ImbalanceShare;
    if p.maxChargeCurrent > 0.0 {
      TailsExactly(p);
    }
  }

  lemma TailsExactly(p: Profile)
    requires p.maxChargeCurrent > 0.0
    ensures p.TailFits()
       <==> && 0.0 <= p.minChargeCurrent
            && p.minChargeCurrent <= p.BalanceShare() && p.minChargeCurrent <= p.ImbalanceShare()
  {
    var a, b := p.chargeBalanceFactor, p.imbalanceAggressiveFactor;
    if a < b {
      MoreIsMore(p.maxChargeCurrent, a, b, p.BalanceShare(), p.ImbalanceShare());
    } else if b < a {
      MoreIsMore(p.maxChargeCurrent, b, a, p.ImbalanceShare(), p.BalanceShare());
    }
  }

  lemma DefaultIsValid()
    ensures DEFAULT.Valid()
  {
  }

  /** The established curve in amperes, at its corners and between them. */
  lemma DefaultCurve()
    ensures DEFAULT.Valid() && DEFAULT.cclChangeRate == 10.0 && DEFAULT.cellMaxVoltage == 3.65
    ensures CclFromCellVoltage(DEFAULT, Some(3.40)) == CclFromCellVoltage(DEFAULT, Some(3.45)) == 100.0
    ensures CclFromCellVoltage(DEFAULT, Some(3.475)) == 60.0 && CclFromCellVoltage(DEFAULT, Some(3.50)) == 20.0
    ensures CclFromCellVoltage(DEFAULT, Some(3.525)) == 11.0 && CclFromCellVoltage(DEFAULT, Some(3.55)) == 2.0
    ensures CclFromCellVoltage(DEFAULT, Some(3.575)) == 1.0 && CclFromCellVoltage(DEFAULT, Some(3.60)) == 0.0
    ensures CclFromImbalance(DEFAULT, Some(0.05)) == 100.0 && CclFromImbalance(DEFAULT, Some(0.075)) == 65.0
    ensures CclFromImbalance(DEFAULT, Some(0.10)) == 30.0 && CclFromImbalance(DEFAULT, Some(0.15)) == 16.0
    ensures CclFromImbalance(DEFAULT, Some(0.20)) == 2.0
    ensures CclFromSoc(DEFAULT, Some(94.0)) == CclFromSoc(DEFAULT, Some(95.0)) == 100.0
    ensures CclFromSoc(DEFAULT, Some(97.5)) == 75.0 && CclFromSoc(DEFAULT, Some(100.0)) == 50.0
    ensures DclFromCellVoltage(DEFAULT, Some(3.0)) == 120.0 && DclFromCellVoltage(DEFAULT, Some(2.95)) == 90.0
    ensures DclFromCellVoltage(DEFAULT, Some(2.9)) == 60.0 && DclFromCellVoltage(DEFAULT, Some(2.8)) == 30.0
    ensures DclFromCellVoltage(DEFAULT, Some(2.7)) == 0.0
  {
    DefaultIsValid();
  }

  lemma DefaultTemperatures()
    ensures DEFAULT.Valid()
    ensures CclFromTemperature(DEFAULT, Some(0.0), Some(20.0)) == 0.0
    ensures CclFromTemperature(DEFAULT, Some(5.0), Some(20.0)) == 25.0
    ensures CclFromTemperature(DEFAULT, Some(10.0), Some(40.0)) == 100.0
    ensures CclFromTemperature(DEFAULT, Some(20.0), Some(45.0)) == 50.0
    ensures CclFromTemperature(DEFAULT, Some(20.0), Some(49.0)) == 20.0
    ensures CclFromTemperature(DEFAULT, Some(20.0), Some(50.0)) == 0.0
    ensures DEFAULT.maxDischargeCurrent * DEFAULT.dischargeHotFactor == 60.0
  {
    DefaultIsValid();
  }

  /** At any fixed low temperature, a hotter sensor never raises the limit; it always stays in range. */
  lemma TemperatureTaperFalls(p: Profile, minTemp: Option<real>, high: real, high': real)
    requires p.Valid() && high <= high'
    ensures 0.0 <= CclFromTemperature(p, minTemp, Some(high')) <= CclFromTemperature(p, minTemp, Some(high))
        <= p.maxChargeCurrent
  {
    hide Profile.TailFits, ColdLimit, HotLimit;
    var low := if minTemp.Some? then minTemp.value else ROOM_TEMPERATURE;
    if p.tempStopCharge < low < p.tempFullCurrentMin {
      ColdLimitRises(p, low, low);
    } else if p.tempFullCurrentMax < high' {
      if high' < p.tempStopChargeHigh {
        HotLimitFalls(p, high', high');
      }
      if p.tempFullCurrentMax < high < p.tempStopChargeHigh {
        HotLimitFalls(p, high, if high' < p.tempStopChargeHigh then high' else high);
      }
    }
  }

  /** Warming the coldest sensor never lowers the limit, while the hottest one stays at high. */
  ghost predicate WarmingNeverLowers(p: Profile, high: real)
    requires p.Valid()
  {
    forall low, low' | low <= low' ::
        CclFromTemperature(p, Some(low), Some(high)) <= CclFromTemperature(p, Some(low'), Some(high))
  }

  /**
   * The cold zone is decided before the hot one, so warming can lower the limit: exactly when the
   * hottest sensor is in the hot zone and allows less than the cold zone does at its warm end.
   */
  lemma WarmingNeverLowersExactly(p: Profile, high: real)
    requires p.Valid()
    ensures WarmingNeverLowers(p, high)
       <==> !(p.tempFullCurrentMax < high < p.tempStopChargeHigh) || p.coldChargeFactor <= HotFactor(p, high)
  {
    hide CclFromTemperature, HotFactor, Profile.TailFits;
    if p.tempFullCurrentMax < high < p.tempStopChargeHigh && HotFactor(p, high) < p.coldChargeFactor {
      var low := WarmingCanLower(p, high);
      assert !(CclFromTemperature(p, Some(low), Some(high))
          <= CclFromTemperature(p, Some(p.tempFullCurrentMin), Some(high)));
    } else {
      forall low, low' | low <= low'
        ensures CclFromTemperature(p, Some(low), Some(high)) <= CclFromTemperature(p, Some(low'), Some(high))
      {
        WarmingDoesNotLower(p, high, low, low');
      }
    }
  }

  lemma HotAllowsTheColdCeiling(p: Profile, high: real)
    requires p.Valid() && p.coldChargeFactor <= HotFactor(p, high)
    ensures ColdCeiling(p) <= HotLimit(p, high)
  {
    hide HotFactor, Profile.TailFits;
    var k, c, f := p.maxChargeCurrent, p.coldChargeFactor, HotFactor(p, high);
    Scale(k, c, f, ColdCeiling(p), HotLimit(p, high));
  }

  lemma WarmingDoesNotLower(p: Profile, high: real, low: real, low': real)
    requires p.Valid() && low <= low'
    requires !(p.tempFullCurrentMax < high < p.tempStopChargeHigh) || p.coldChargeFactor <= HotFactor(p, high)
    ensures CclFromTemperature(p, Some(low), Some(high)) <= CclFromTemperature(p, Some(low'), Some(high))
  {
    hide Profile.TailFits, ColdLimit, HotLimit, HotFactor, ColdCeiling;
    TemperatureTaperFalls(p, Some(low'), high, high);
    if p.tempStopCharge < low < p.tempFullCurrentMin {
      ColdLimitRises(p, low, if low' < p.tempFullCurrentMin then low' else low);
      if p.tempFullCurrentMax < high < p.tempStopChargeHigh {
        HotAllowsTheColdCeiling(p, high);
      }
    }
  }

  /** A low temperature in the cold zone from which warming to the full-current minimum lowers the limit. */
  lemma WarmingCanLower(p: Profile, high: real) returns (low: real)
    requires p.Valid() && p.tempFullCurrentMax < high < p.tempStopChargeHigh && HotFactor(p, high) < p.coldChargeFactor
    ensures low < p.tempFullCurrentMin
    ensures CclFromTemperature(p, Some(p.tempFullCurrentMin), Some(high)) < CclFromTemperature(p, Some(low), Some(high))
  {
    hide Profile.TailFits, HotFactor, Ratio;
    HotFactorFalls(p, high, high);
    var k, hot, cold := p.maxChargeCurrent, HotFactor(p, high), p.coldChargeFactor;
    var share := HalfwayShare(hot, cold);
    var width := p.tempFullCurrentMin - p.tempStopCharge;
    var part := width * share;
    low := p.tempStopCharge + part;
    ShareBetween(p.tempStopCharge, width, part, low, share);
    assert p.tempStopCharge + width == p.tempFullCurrentMin;
    var more := share * cold;
    assert ColdLimit(p, low) == k * share * cold == k * more;
    MoreIsMore(k, hot, more, HotLimit(p, high), ColdLimit(p, low));
  }

  lemma HalfwayShare(hot: real, cold: real) returns (share: real)
    requires 0.0 <= hot < cold
    ensures 0.0 < share < 1.0 && hot < share * cold
  {
    var q := hot / cold;
    assert q * cold == hot;
    share := (1.0 + q) / 2.0;
    assert share * cold == (cold + q * cold) / 2.0;
    Sign(cold, q - 1.0);
    Sign(cold, -q);
  }

  lemma MoreIsMore(k: real, x: real, y: real, kx: real, ky: real)
    requires 0.0 < k && x < y && kx == k * x && ky == k * y
    ensures kx < ky
  {
    assert ky - kx == k * (y - x);
  }

  lemma InnerPart(width: real, share: real, part: real)
    requires 0.0 < width && 0.0 < share < 1.0 && part == width * share
    ensures 0.0 < part < width && part / width == share
  {
    MoreIsMore(width, 0.0, share, 0.0, part);
    MoreIsMore(width, share, 1.0, part, width);
    Quotient(width, share, part);
  }

  lemma Quotient(width: real, share: real, part: real)
    requires 0.0 < width && part == width * share
    ensures part / width == share
  {
    var q := part / width;
    assert q * width == part;
    SameFactor(width, q, share);
  }

  lemma SameFactor(k: real, x: real, y: real)
    requires 0.0 < k && k * x == k * y
    ensures x == y
  {
    if x != y {
      MoreIsMore(k, if x < y then x else y, if x < y then y else x, k * (if x < y then x else y),
          k * (if x < y then y else x));
    }
  }

  lemma ShareBetween(a: real, width: real, part: real, x: real, share: real)
    requires 0.0 < width && 0.0 < share < 1.0 && part == width * share && x == a + part
    ensures a < x < a + width && Ratio(x, a, a + width) == share
  {
    InnerPart(width, share, part);
    assert x - a == part && (a + width) - a == width;
  }

  /** With the established curve, 9.9 C rising to 10 C beside a 49 C sensor lowers the limit from 49.5 A to 20 A. */
  lemma WarmingLowersTheDefaultLimit()
    ensures DEFAULT.Valid()
    ensures CclFromTemperature(DEFAULT, Some(9.9), Some(49.0)) == 49.5
    ensures CclFromTemperature(DEFAULT, Some(10.0), Some(49.0)) == 20.0
  {
  }
}
