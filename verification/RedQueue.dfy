/**
 * The RED router approximation: the drop probability and delay at a given load, solved in
 * closed form.  `Solves` is the queue equation it is meant to solve, stated without the
 * formula; it has at most one solution, which never falls as the load grows.
 */
module RedQueue {

  /** x/(1-x), the mean queue of a server at utilisation x. */
  predicate QueueAt(x: real, delay: real) {
    x < 1.0 && delay * (1.0 - x) == x
  }

  /** How fast the delay grows with the drop probability between the thresholds. */
  function SlopeOf(minTh: real, maxTh: real, maxP: real): real
    requires maxP > 0.0
  {
    (maxTh - minTh) / maxP
  }

  /** The drop law: none below MinTh, a straight line up to MaxP at MaxTh, more only at MaxTh. */
  predicate DropLaw(minTh: real, maxTh: real, maxP: real, p: real, delay: real)
    requires maxP > 0.0
  {
    || (p == 0.0 && delay <= minTh)
    || (0.0 < p && (maxP < 1.0 ==> p <= maxP) && delay == minTh + SlopeOf(minTh, maxTh, maxP) * p)
    || (maxP < 1.0 && maxP < p && delay == maxTh)
  }

  /** The fixed point: what survives the drops loads the queue to the delay that causes them. */
  predicate Solves(minTh: real, maxTh: real, maxP: real, load: real, p: real, delay: real)
    requires maxP > 0.0
  {
    0.0 <= p < 1.0 && QueueAt(load * (1.0 - p), delay) && DropLaw(minTh, maxTh, maxP, p, delay)
  }

  predicate Parameters(minTh: real, maxTh: real, maxP: real) {
    0.0 <= minTh < maxTh && maxP > 0.0
  }

  // The coefficients of the quadratic a.p^2 + b.p + c that the router solves.

  function CoefA(minTh: real, maxTh: real, maxP: real, load: real): real
    requires maxP > 0.0
  {
    load * (maxTh - minTh) / maxP
  }

  function CoefB(minTh: real, maxTh: real, maxP: real, load: real): real
    requires maxP > 0.0
  {
    (maxTh - minTh) * (1.0 - load) / maxP + minTh * load + load
  }

  function CoefC(minTh: real, load: real): real {
    minTh * (1.0 - load) - load
  }

  /** What is passed to the square root. */
  function Discriminant(a: real, b: real, c: real): real {
    b * b - 4.0 * a * c
  }

  // ---------------------------------------------------------------- arithmetic

  lemma Less(x: real, y: real, c: real)
    ensures c > 0.0 ==> (x < y <==> c * x < c * y)
    ensures c > 0.0 ==> (x == y <==> c * x == c * y)
    ensures c >= 0.0 && x <= y ==> c * x <= c * y
  {
    if c > 0.0 {
      assert c * (y - x) == c * y - c * x;
      Sign(c, y - x);
    }
  }

  lemma Sign(c: real, x: real)
    ensures c > 0.0 ==> (x > 0.0 <==> c * x > 0.0) && (x < 0.0 <==> c * x < 0.0)
  {
    if c > 0.0 && x > 0.0 {
      assert c * x > 0.0;
    } else if c > 0.0 && x < 0.0 {
      assert c * x < 0.0;
    }
  }

  /** Reciprocals are ordered the other way round. */
  lemma Reciprocals(y1: real, e1: real, y2: real, e2: real)
    requires y1 > 0.0 && y2 > 0.0 && y1 * e1 == 1.0 && y2 * e2 == 1.0
    ensures y1 > y2 <==> e1 < e2
    ensures y1 == y2 <==> e1 == e2
  {
    var q := y1 * y2;
    Sign(y1, y2);
    assert q * e2 == y1 * (y2 * e2);
    assert q * e1 == y2 * (y1 * e1);
    assert q * (e2 - e1) == y1 - y2;
    Sign(q, e2 - e1);
  }

  lemma QueueMonotone(x1: real, d1: real, x2: real, d2: real)
    requires QueueAt(x1, d1) && QueueAt(x2, d2)
    ensures x1 < x2 ==> d1 < d2
    ensures x1 == x2 ==> d1 == d2
  {
    assert (1.0 - x1) * (d1 + 1.0) == d1 * (1.0 - x1) + (1.0 - x1);
    assert (1.0 - x2) * (d2 + 1.0) == d2 * (1.0 - x2) + (1.0 - x2);
    Reciprocals(1.0 - x1, d1 + 1.0, 1.0 - x2, d2 + 1.0);
  }

  lemma Survivors(l1: real, p1: real, l2: real, p2: real)
    ensures 0.0 < l1 <= l2 && p2 < p1 < 1.0 ==> l1 * (1.0 - p1) < l2 * (1.0 - p2)
  {
    Sign(l1, p1 - p2);
    assert l1 * (1.0 - p2) - l1 * (1.0 - p1) == l1 * (p1 - p2);
    Sign(1.0 - p2, l2 - l1);
    assert l2 * (1.0 - p2) - l1 * (1.0 - p2) == (1.0 - p2) * (l2 - l1);
  }

  // ---------------------------------------------------------------- the fixed point

  /** A larger drop probability goes with no smaller a delay. */
  lemma DropLawMonotone(minTh: real, maxTh: real, maxP: real, p1: real, d1: real, p2: real, d2: real)
    requires Parameters(minTh, maxTh, maxP)
    requires DropLaw(minTh, maxTh, maxP, p1, d1) && DropLaw(minTh, maxTh, maxP, p2, d2)
    requires 0.0 <= p2 < p1
    ensures d2 <= d1
  {
    var k := SlopeOf(minTh, maxTh, maxP);
    SlopePositive(minTh, maxTh, maxP);
    Less(p2, p1, k);
    Less(0.0, p1, k);
    Less(p2, maxP, k);
  }

  /** p never decreases as the load grows. */
  lemma Monotone(minTh: real, maxTh: real, maxP: real, l1: real, p1: real, d1: real, l2: real, p2: real, d2: real)
    requires Parameters(minTh, maxTh, maxP) && 0.0 <= l1 <= l2
    requires Solves(minTh, maxTh, maxP, l1, p1, d1) && Solves(minTh, maxTh, maxP, l2, p2, d2)
    ensures p1 <= p2
  {
    Survivors(l1, p1, l2, p2);
    QueueMonotone(l1 * (1.0 - p1), d1, l2 * (1.0 - p2), d2);
    if p2 < p1 {
      DropLawMonotone(minTh, maxTh, maxP, p1, d1, p2, d2);
      IdleQueue(minTh, maxTh, maxP, l1, p1, d1);
    }
  }

  /** Without load nothing is dropped. */
  lemma IdleQueue(minTh: real, maxTh: real, maxP: real, load: real, p: real, delay: real)
    requires Parameters(minTh, maxTh, maxP) && Solves(minTh, maxTh, maxP, load, p, delay)
    ensures load == 0.0 ==> p == 0.0
  {
    if load == 0.0 {
      assert load * (1.0 - p) == 0.0;
      assert delay == 0.0;
      SlopePositive(minTh, maxTh, maxP);
      Sign(SlopeOf(minTh, maxTh, maxP), p);
    }
  }

  /** At every load there is at most one fixed point. */
  lemma Unique(minTh: real, maxTh: real, maxP: real, load: real, p1: real, d1: real, p2: real, d2: real)
    requires Parameters(minTh, maxTh, maxP) && 0.0 <= load
    requires Solves(minTh, maxTh, maxP, load, p1, d1) && Solves(minTh, maxTh, maxP, load, p2, d2)
    ensures p1 == p2 && d1 == d2
  {
    Monotone(minTh, maxTh, maxP, load, p1, d1, load, p2, d2);
    Monotone(minTh, maxTh, maxP, load, p2, d2, load, p1, d1);
    QueueMonotone(load * (1.0 - p1), d1, load * (1.0 - p2), d2);
  }

  // ---------------------------------------------------------------- the closed form

  /** The positive root of a.p^2 + b.p + c for a > 0 > c. */
  lemma PositiveRoot(a: real, b: real, c: real, root: real, p: real)
    requires a > 0.0 && c < 0.0 && root >= 0.0 && root * root == b * b - 4.0 * a * c
    requires p == (-b + root) / (2.0 * a)
    ensures p > 0.0 && a * p * p + b * p + c == 0.0
  {
    var ac := a * c;
    assert ac < 0.0;
    assert 4.0 * a * c == 4.0 * ac;
    RootAbove(b, root);
    var q := 2.0 * a * p;
    assert q == root - b;
    Sign(2.0 * a, p);
    assert (q + b) * (q + b) == q * q + 2.0 * (b * q) + b * b;
    assert q * q + 2.0 * (b * q) + 4.0 * ac == 0.0;
    var f := a * p * p + b * p + c;
    assert q * q == 4.0 * a * (a * p * p);
    assert b * q == 2.0 * a * (b * p);
    assert 4.0 * a * f == 4.0 * a * (a * p * p) + 4.0 * a * (b * p) + 4.0 * a * c;
    Sign(4.0 * a, f);
  }

  /** The root with the minus sign is negative, so the other is the only positive one. */
  lemma MinusRoot(a: real, b: real, c: real, root: real, p: real)
    requires a > 0.0 && c < 0.0 && root >= 0.0 && root * root == b * b - 4.0 * a * c
    requires p == (-b - root) / (2.0 * a)
    ensures p < 0.0
  {
    var ac := a * c;
    assert ac < 0.0;
    assert 4.0 * a * c == 4.0 * ac;
    RootAbove(-b, root);
    var q := 2.0 * a * p;
    assert q == -b - root;
    Sign(2.0 * a, p);
  }

  /** Any positive solution of the quadratic is the closed form. */
  lemma OnlyPositiveRoot(a: real, b: real, c: real, p: real, x: real)
    requires a > 0.0 && c < 0.0 && p > 0.0 && x > 0.0
    requires a * p * p + b * p + c == 0.0 && a * x * x + b * x + c == 0.0
    ensures x == p
  {
    var s, t := a * p + b, a * (x + p) + b;
    assert p * s == a * p * p + b * p;
    Sign(p, s);
    assert a * x > 0.0;
    assert t == a * x + s;
    var d := x - p;
    assert d * t == (a * x * x + b * x) - (a * p * p + b * p);
    assert t * d == 0.0;
    Sign(t, d);
  }

  /** The square root has a positive argument: a real root exists to be supplied. */
  lemma DiscriminantPositive(a: real, b: real, c: real)
    requires a > 0.0 && c < 0.0
    ensures Discriminant(a, b, c) > 0.0
  {
    Sign(a, c);
    assert 4.0 * a * c == 4.0 * (a * c);
    SquareNonNegative(b);
  }

  lemma SquareNonNegative(b: real)
    ensures b * b >= 0.0
  {
    if b < 0.0 {
      assert b * b == (-b) * (-b);
    }
  }

  lemma RootAbove(b: real, root: real)
    ensures root >= 0.0 && root * root > b * b ==> root > b
  {
    if 0.0 <= root <= b {
      Less(root, b, root);
      Less(root, b, b);
    }
  }

  /** What the quadratic's coefficients stand for, with k the slope of the drop line. */
  predicate Quadratic(minTh: real, k: real, load: real, a: real, b: real, c: real) {
    a == load * k && b == k * (1.0 - load) + minTh * load + load && c == minTh * (1.0 - load) - load
  }

  lemma Rearranged(minTh: real, k: real, load: real, p: real, a: real, b: real, c: real)
    requires Quadratic(minTh, k, load, a, b, c)
    ensures (1.0 - load * (1.0 - p)) * (minTh + k * p) - load * (1.0 - p) == a * p * p + b * p + c
  {
  }

  /** Above Lambda_L, the positive root of the router's quadratic is the fixed point on the line. */
  lemma MiddleRegime(minTh: real, k: real, load: real, p: real, a: real, b: real, c: real)
    requires k > 0.0 && minTh >= 0.0 && load > 0.0 && p > 0.0
    requires Quadratic(minTh, k, load, a, b, c) && a * p * p + b * p + c == 0.0
    ensures p < 1.0 && QueueAt(load * (1.0 - p), minTh + k * p)
  {
    Rearranged(minTh, k, load, p, a, b, c);
    Sign(k, p);
    OnTheQueue(load * (1.0 - p), minTh + k * p);
    Sign(load, 1.0 - p);
  }

  lemma OnTheQueue(x: real, d: real)
    requires (1.0 - x) * d - x == 0.0 && d > 0.0
    ensures QueueAt(x, d) && x > 0.0
  {
    Sign(d, 1.0 - x);
    assert (1.0 - x) * d == d * (1.0 - x);
  }

  /** At or below Lambda_H that fixed point drops no more than MaxP. */
  lemma MiddleBound(minTh: real, maxTh: real, maxP: real, k: real, load: real, p: real, x: real, delay: real, full: real)
    requires k > 0.0 && k * maxP == maxTh - minTh && delay == minTh + k * p
    requires load > 0.0 && p < 1.0 && x == load * (1.0 - p) && load * (1.0 - maxP) <= full
    requires QueueAt(x, delay) && QueueAt(full, maxTh)
    ensures p <= maxP
  {
    Survivors(load, p, load, maxP);
    Less(maxP, p, k);
    QueueMonotone(x, delay, full, maxTh);
  }

  lemma Quotient(x: real, q: real, m: real)
    requires m > 0.0 && x == q * m
    ensures x / m == q
  {
    assert m * (x / m) == x && m * q == x;
    Less(x / m, q, m);
  }

  lemma SlopePositive(minTh: real, maxTh: real, maxP: real)
    requires Parameters(minTh, maxTh, maxP)
    ensures var k := SlopeOf(minTh, maxTh, maxP); k > 0.0 && k * maxP == maxTh - minTh
  {
    var k := SlopeOf(minTh, maxTh, maxP);
    assert maxP * k == maxTh - minTh;
    Sign(maxP, k);
  }

  lemma Coefficients(minTh: real, maxTh: real, maxP: real, load: real, k: real)
    requires maxP > 0.0 && k * maxP == maxTh - minTh
    ensures Quadratic(minTh, k, load, CoefA(minTh, maxTh, maxP, load), CoefB(minTh, maxTh, maxP, load), CoefC(minTh, load))
  {
    var d := maxTh - minTh;
    assert load * d == load * k * maxP;
    assert d * (1.0 - load) == k * (1.0 - load) * maxP;
    Quotient(load * d, load * k, maxP);
    Quotient(d * (1.0 - load), k * (1.0 - load), maxP);
  }

  lemma CoefficientSigns(minTh: real, k: real, load: real, a: real, b: real, c: real, low: real)
    requires Quadratic(minTh, k, load, a, b, c) && minTh >= 0.0 && k > 0.0
    requires load > low >= 0.0 && low * (1.0 + minTh) == minTh
    ensures a > 0.0 && c < 0.0
  {
    Sign(load, k);
    Less(low, load, 1.0 + minTh);
  }

  /** Between the thresholds the closed form is the fixed point on the drop line. */
  lemma MiddleSolves(minTh: real, maxTh: real, maxP: real, k: real, load: real,
                     a: real, b: real, c: real, root: real, p: real)
    requires Parameters(minTh, maxTh, maxP) && k > 0.0 && k * maxP == maxTh - minTh && load > 0.0
    requires Quadratic(minTh, k, load, a, b, c) && c < 0.0 && a > 0.0
    requires root >= 0.0 && root * root == b * b - 4.0 * a * c && p == (-b + root) / (2.0 * a)
    requires maxP < 1.0 ==> load * (1.0 - maxP) <= maxTh / (1.0 + maxTh)
    ensures 0.0 < p < 1.0 && QueueAt(load * (1.0 - p), minTh + k * p)
    ensures maxP < 1.0 ==> p <= maxP
  {
    PositiveRoot(a, b, c, root, p);
    MiddleRegime(minTh, k, load, p, a, b, c);
    if maxP < 1.0 {
      FullAt(maxTh, maxTh / (1.0 + maxTh));
      MiddleBound(minTh, maxTh, maxP, k, load, p, load * (1.0 - p), minTh + k * p, maxTh / (1.0 + maxTh));
    }
  }

  /** The utilisation at which the delay reaches a threshold. */
  lemma FullAt(th: real, full: real)
    requires th >= 0.0 && full == th / (1.0 + th)
    ensures QueueAt(full, th) && 0.0 <= full && (th > 0.0 ==> full > 0.0) && full * (1.0 + th) == th
  {
    assert full * (1.0 + th) == th;
    Less(full, 1.0, 1.0 + th);
    Sign(1.0 + th, full);
  }

  /** The three coefficients as the router computes them. */
  lemma Computed(minTh: real, maxTh: real, maxP: real, low: real, load: real)
    requires Parameters(minTh, maxTh, maxP) && load > low >= 0.0 && low * (1.0 + minTh) == minTh
    ensures var a, b, c := CoefA(minTh, maxTh, maxP, load), CoefB(minTh, maxTh, maxP, load), CoefC(minTh, load);
            Quadratic(minTh, SlopeOf(minTh, maxTh, maxP), load, a, b, c) && a > 0.0 && c < 0.0
  {
    var k := SlopeOf(minTh, maxTh, maxP);
    SlopePositive(minTh, maxTh, maxP);
    Coefficients(minTh, maxTh, maxP, load, k);
    CoefficientSigns(minTh, k, load, CoefA(minTh, maxTh, maxP, load), CoefB(minTh, maxTh, maxP, load),
                     CoefC(minTh, load), low);
  }

  /** Between the thresholds the closed form is a fixed point. */
  lemma Middle(minTh: real, maxTh: real, maxP: real, k: real, load: real, a: real, b: real, c: real,
               root: real, p: real, x: real)
    requires Parameters(minTh, maxTh, maxP) && load > 0.0 && k == SlopeOf(minTh, maxTh, maxP)
    requires maxP < 1.0 ==> load * (1.0 - maxP) <= maxTh / (1.0 + maxTh)
    requires Quadratic(minTh, k, load, a, b, c) && a > 0.0 && c < 0.0
    requires root >= 0.0 && root * root == Discriminant(a, b, c)
    requires p == (-b + root) / (2.0 * a) && x == load * (1.0 - p)
    ensures p > 0.0 && (maxP < 1.0 ==> p <= maxP)
    ensures x < 1.0 && Solves(minTh, maxTh, maxP, load, p, minTh + k * p) && x / (1.0 - x) == minTh + k * p
  {
    SlopePositive(minTh, maxTh, maxP);
    MiddleSolves(minTh, maxTh, maxP, k, load, a, b, c, root, p);
    OwnQueue(x, minTh + k * p);
  }

  lemma OwnQueue(x: real, d: real)
    requires QueueAt(x, d)
    ensures x / (1.0 - x) == d
  {
    Quotient(x, d, 1.0 - x);
  }

  /** The load that reaches the upper threshold once the share maxP is dropped. */
  lemma HighThreshold(full: real, maxP: real, h: real)
    requires full > 0.0 && 0.0 < maxP < 1.0 && h == full / (1.0 - maxP)
    ensures h * (1.0 - maxP) == full && h > full
  {
    var y := 1.0 - maxP;
    assert h * y == full;
    Sign(y, h);
    Sign(maxP, h);
    assert h * y == h - maxP * h;
  }

  /** Above that load, dropping down to `full` takes more than maxP. */
  lemma HighDrop(load: real, h: real, full: real, maxP: real, p: real)
    requires load > h > 0.0 && full > 0.0 && 0.0 < maxP < 1.0 && h * (1.0 - maxP) == full
    requires load * p == load - full
    ensures maxP < p < 1.0 && load * (1.0 - p) == full
  {
    var v := 1.0 - p;
    assert load * v == full;
    Sign(load, v);
    var y, u, d := 1.0 - maxP, load - h, p - maxP;
    Sign(y, u);
    assert y * u == load * y - h * y;
    assert load * y > full;
    assert load * y == load - load * maxP;
    assert load * d == load * p - load * maxP;
    assert load * d > 0.0;
    Sign(load, d);
  }

  lemma Divided(x: real, y: real)
    requires y > 0.0
    ensures y * (x / y) == x
  {
  }

  class RedRouter {
    var MinTh: real
    var MaxTh: real
    var MaxP: real
    var Lambda_L: real
    var Lambda_H: real

    predicate Valid()
      reads this
    {
      && Parameters(MinTh, MaxTh, MaxP)
      && Lambda_L == MinTh / (1.0 + MinTh)
      && (MaxP < 1.0 ==> Lambda_H == MaxTh / (1.0 + MaxTh) / (1.0 - MaxP))
    }

    constructor (mTh: int, MTh: int, MP: real)
      requires 0 <= mTh < MTh && MP > 0.0
      ensures Valid() && MinTh == mTh as real && MaxTh == MTh as real && MaxP == MP
    {
      MinTh, MaxTh, MaxP := mTh as real, MTh as real, MP;
      new;
      Populate();
    }

    method Populate()
      requires Parameters(MinTh, MaxTh, MaxP)
      modifies this
      ensures Valid() && MinTh == old(MinTh) && MaxTh == old(MaxTh) && MaxP == old(MaxP)
    {
      Lambda_L := MinTh / (1.0 + MinTh);
      if MaxP < 1.0 {
        Lambda_H := MaxTh / (1.0 + MaxTh) / (1.0 - MaxP);
      }
    }

    /** `root` is the square root the platform returns for the discriminant; it is only used
        between the two thresholds. */
    method ComputeProbability(load: real, root: real) returns (p: real, delay: real)
      requires Valid() && load >= 0.0
      requires load > Lambda_L ==>
        root >= 0.0 && root * root == Discriminant(CoefA(MinTh, MaxTh, MaxP, load), CoefB(MinTh, MaxTh, MaxP, load),
                                                   CoefC(MinTh, load))
      ensures Solves(MinTh, MaxTh, MaxP, load, p, delay)
      ensures p == 0.0 <==> load <= Lambda_L
      ensures MaxP < 1.0 ==> (p > MaxP <==> load > Lambda_H)
    {
      Thresholds();
      if load <= Lambda_L {
        LowLoad(load);
        return 0.0, load / (1.0 - load);
      }
      if MaxP < 1.0 && load > Lambda_H {
        delay := MaxTh;
        p := (load - Lambda_H * (1.0 - MaxP)) / load;
        HighLoad(load, p);
        return;
      }
      ReachesLess(load);
      p, delay := SolveQuadratic(load, root);
    }

    /** Lines 103-111. */
    method SolveQuadratic(load: real, root: real) returns (p: real, delay: real)
      requires Parameters(MinTh, MaxTh, MaxP) && load > Lambda_L >= 0.0 && Lambda_L * (1.0 + MinTh) == MinTh
      requires MaxP < 1.0 ==> load * (1.0 - MaxP) <= MaxTh / (1.0 + MaxTh)
      requires root >= 0.0 && root * root == Discriminant(
        CoefA(MinTh, MaxTh, MaxP, load), CoefB(MinTh, MaxTh, MaxP, load), CoefC(MinTh, load))
      ensures Solves(MinTh, MaxTh, MaxP, load, p, delay) && p > 0.0 && (MaxP < 1.0 ==> p <= MaxP)
    {
      var a := CoefA(MinTh, MaxTh, MaxP, load);
      var b := CoefB(MinTh, MaxTh, MaxP, load);
      var c := CoefC(MinTh, load);
      Computed(MinTh, MaxTh, MaxP, Lambda_L, load);
      p := (-b + root) / (2.0 * a);
      Middle(MinTh, MaxTh, MaxP, SlopeOf(MinTh, MaxTh, MaxP), load, a, b, c, root, p, load * (1.0 - p));
      delay := load * (1.0 - p) / (1.0 - (load * (1.0 - p)));
    }

    lemma ReachesLess(load: real)
      requires Valid() && (MaxP < 1.0 ==> load <= Lambda_H && Lambda_H * (1.0 - MaxP) == MaxTh / (1.0 + MaxTh))
      ensures MaxP < 1.0 ==> load * (1.0 - MaxP) <= MaxTh / (1.0 + MaxTh)
    {
      Less(load, Lambda_H, 1.0 - MaxP);
    }

    lemma Thresholds()
      requires Valid()
      ensures Lambda_L * (1.0 + MinTh) == MinTh && 0.0 <= Lambda_L < 1.0
      ensures MaxP < 1.0 ==> Lambda_H > Lambda_L && Lambda_H * (1.0 - MaxP) == MaxTh / (1.0 + MaxTh)
    {
      FullAt(MinTh, Lambda_L);
      if MaxP < 1.0 {
        var full := MaxTh / (1.0 + MaxTh);
        FullAt(MaxTh, full);
        QueueMonotone(full, MaxTh, Lambda_L, MinTh);
        HighThreshold(full, MaxP, Lambda_H);
      }
    }

    lemma LowLoad(load: real)
      requires Valid() && 0.0 <= load <= Lambda_L < 1.0 && Lambda_L * (1.0 + MinTh) == MinTh
      ensures QueueAt(load * (1.0 - 0.0), load / (1.0 - load)) && load / (1.0 - load) <= MinTh
    {
      var d := load / (1.0 - load);
      assert d * (1.0 - load) == load;
      assert MinTh * (1.0 - Lambda_L) == Lambda_L;
      QueueMonotone(load, d, Lambda_L, MinTh);
    }

    lemma HighLoad(load: real, p: real)
      requires Valid() && MaxP < 1.0 && load > Lambda_H > 0.0 && Lambda_H * (1.0 - MaxP) == MaxTh / (1.0 + MaxTh)
      requires p == (load - Lambda_H * (1.0 - MaxP)) / load
      ensures MaxP < p < 1.0 && QueueAt(load * (1.0 - p), MaxTh)
    {
      var full := MaxTh / (1.0 + MaxTh);
      FullAt(MaxTh, full);
      Divided(load - full, load);
      HighDrop(load, Lambda_H, full, MaxP, p);
    }
  }
}
