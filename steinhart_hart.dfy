/** The Steinhart–Hart model 1/T = A + B ln R + C (ln R)^3 (T in kelvin):
    the three-point fit, the direct R → T evaluation and the Newton
    iteration that inverts it. */
module SteinhartHart {
  import opened Results
  import opened Numerics

  datatype ShCoefficients = ShCoefficients(a: real, b: real, c: real)

  /** A matrix as numpy holds it: a sequence of rows. */
  type Matrix = seq<seq<real>>

  /** The two numpy.linalg routines the fit calls, left uninterpreted.
      solve yields None exactly where it raises LinAlgError. */
  datatype LinearAlgebra = LinearAlgebra(
    solve: (Matrix, seq<real>) -> Option<ShCoefficients>,
    lstsq: (Matrix, seq<real>) -> ShCoefficients)

  function Square(x: real): real
  {
    x * x
  }

  function Cube(x: real): real
  {
    x * x * x
  }

  /** The right-hand side of the model at ln R. */
  function InverseTemperature(k: ShCoefficients, lnR: real): real
  {
    k.a + k.b * lnR + k.c * Cube(lnR)
  }

  /** One row [1, ln R, (ln R)^3] of the design matrix; numpy.log does not
      raise for R <= 0. */
  function DesignRow(lib: FloatLib, r: real): seq<real>
  {
    var x := NpLog(lib, r);
    [1.0, x, Cube(x)]
  }

  function DesignMatrix(lib: FloatLib, rs: seq<real>): Matrix
  {
    seq(|rs|, i requires 0 <= i < |rs| => DesignRow(lib, rs[i]))
  }

  /** The targets 1/T_k, computed elementwise by numpy. */
  function Targets(lib: FloatLib, ts: seq<real>): seq<real>
  {
    seq(|ts|, i requires 0 <= i < |ts| => NpReciprocal(lib, CToK(ts[i])))
  }

  /** k is an exact solution of the linear system m k = y. */
  predicate Solves(k: ShCoefficients, m: Matrix, y: seq<real>)
  {
    |m| == |y| &&
    forall i :: 0 <= i < |m| ==>
      |m[i]| == 3 && m[i][0] * k.a + m[i][1] * k.b + m[i][2] * k.c == y[i]
  }

  /** What a correct numpy.linalg.solve promises: a result it returns solves
      the system. */
  ghost predicate SolveIsExact(la: LinearAlgebra)
  {
    forall m, y, k :: la.solve(m, y) == Some(k) ==> Solves(k, m, y)
  }

  /** compute_steinhart_hart: exactly three pairs are demanded; the system
      is solved exactly, and by least squares when solve reports a singular
      matrix. */
  function Fit(lib: FloatLib, la: LinearAlgebra, rs: seq<real>, ts: seq<real>): (r: Result<ShCoefficients>)
    ensures r.Err? <==> |rs| != 3 || |ts| != 3
    ensures r.Err? ==> r.error == WrongPairCount
    ensures r.Ok? && la.solve(DesignMatrix(lib, rs), Targets(lib, ts)).Some? ==>
      r.value == la.solve(DesignMatrix(lib, rs), Targets(lib, ts)).value
    ensures r.Ok? && la.solve(DesignMatrix(lib, rs), Targets(lib, ts)).None? ==>
      r.value == la.lstsq(DesignMatrix(lib, rs), Targets(lib, ts))
  {
    if |rs| != 3 || |ts| != 3 then Err(WrongPairCount)
    else
      var x := DesignMatrix(lib, rs);
      var y := Targets(lib, ts);
      match la.solve(x, y)
      case Some(k) => Ok(k)
      case None => Ok(la.lstsq(x, y))
  }

  /** sh_T_from_R: math.log raises for R <= 0; a non-positive 1/T is
      rejected; otherwise the temperature in °C. */
  function TFromR(lib: FloatLib, k: ShCoefficients, r: real): (res: Result<real>)
    ensures r <= 0.0 ==> res == Err(MathDomain)
    ensures r > 0.0 ==> (res.Err? <==> InverseTemperature(k, Log(lib, r)) <= 0.0)
    ensures r > 0.0 && res.Err? ==> res.error == NonPhysical
    ensures res.Ok? ==> r > 0.0 && CToK(res.value) > 0.0
    ensures res.Ok? ==> CToK(res.value) * InverseTemperature(k, Log(lib, r)) == 1.0
  {
    var lnR :- CheckedLog(lib, r);
    var invT := InverseTemperature(k, lnR);
    if invT <= 0.0 then Err(NonPhysical) else Ok(KToC(1.0 / invT))
  }

  /** A fit that solved its system exactly reproduces each calibration
      point: evaluating the model at R_i gives back T_i. */
  lemma FitReproducesCalibration(lib: FloatLib, la: LinearAlgebra, rs: seq<real>, ts: seq<real>, i: nat)
    requires SolveIsExact(la)
    requires Fit(lib, la, rs, ts).Ok?
    requires la.solve(DesignMatrix(lib, rs), Targets(lib, ts)).Some?
    requires i < |rs| && i < |ts|
    requires rs[i] > 0.0 && CToK(ts[i]) > 0.0
    ensures TFromR(lib, Fit(lib, la, rs, ts).value, rs[i]) == Ok(ts[i])
  {
    var x := DesignMatrix(lib, rs);
    var y := Targets(lib, ts);
    var k := Fit(lib, la, rs, ts).value;
    assert Solves(k, x, y);
    assert x[i] == DesignRow(lib, rs[i]);
    var lnR := Log(lib, rs[i]);
    assert y[i] * CToK(ts[i]) == 1.0;
    assert InverseTemperature(k, lnR) == y[i];
    KelvinInverse(CToK(ts[i]), y[i]);
  }

  /** A positive reciprocal gives back the temperature it came from. */
  lemma KelvinInverse(tK: real, inv: real)
    requires tK > 0.0 && inv * tK == 1.0
    ensures inv > 0.0 && 1.0 / inv == tK
  {
  }

  // ---------------------------------------------------------------------
  // sh_R_from_T: Newton's method on f(R) = A + B ln R + C (ln R)^3 - 1/T.
  // ---------------------------------------------------------------------

  /** The starting resistance, in ohms. */
  const Seed: real := 10000.0

  const MaxIterations: nat := 60

  /** The iteration stops once a step moves R by less than this. */
  const Tolerance: real := 0.000000001

  /** The returned resistance is never below this. */
  const MinResistance: real := 0.000000001

  /** Scale of the step taken when the derivative vanishes. */
  const DegenerateStepFactor: real := 0.000001

  /** Each pass first replaces a non-positive R by 1 Ω. */
  function Clamp(r: real): (c: real)
    ensures c > 0.0
    ensures r > 0.0 ==> c == r
  {
    if r <= 0.0 then 1.0 else r
  }

  function Residual(lib: FloatLib, k: ShCoefficients, y: real, r: real): real
    requires r > 0.0
  {
    InverseTemperature(k, Log(lib, r)) - y
  }

  /** df/dR = (B + 3 C (ln R)^2) / R */
  function Slope(lib: FloatLib, k: ShCoefficients, r: real): real
    requires r > 0.0
  {
    (k.b + 3.0 * k.c * Square(Log(lib, r))) / r
  }

  /** The Newton step f/df, or a tiny multiple of f where df is zero. */
  function Step(f: real, df: real): (s: real)
    ensures df != 0.0 ==> s * df == f
    ensures df == 0.0 ==> s == f * DegenerateStepFactor
    ensures s == 0.0 <==> f == 0.0
  {
    if df != 0.0 then f / df else f * DegenerateStepFactor
  }

  function Next(lib: FloatLib, k: ShCoefficients, y: real, r: real): real
    requires r > 0.0
  {
    r - Step(Residual(lib, k, y, r), Slope(lib, k, r))
  }

  /** A pass that starts at r (already clamped) moves it by less than the
      tolerance, so the iteration stops there. */
  predicate Settled(lib: FloatLib, k: ShCoefficients, y: real, r: real)
    requires r > 0.0
  {
    Abs(Next(lib, k, y, r) - r) < Tolerance
  }

  /** The value of R when the loop ends, entered with R = r and n passes left.
      A loop that breaks ends on a positive R; only one that runs all n
      passes can end on the unclamped iterate, which may be non-positive. */
  function Newton(lib: FloatLib, k: ShCoefficients, y: real, r: real, n: nat): (v: real)
    ensures v > 0.0 || v == Iterate(lib, k, y, r, n)
    decreases n
  {
    if n == 0 then r
    else
      var rc := Clamp(r);
      if Settled(lib, k, y, rc) then rc else Newton(lib, k, y, Next(lib, k, y, rc), n - 1)
  }

  /** R after j full passes that did not stop. */
  function Iterate(lib: FloatLib, k: ShCoefficients, y: real, r: real, j: nat): real
    decreases j
  {
    if j == 0 then r else Iterate(lib, k, y, Next(lib, k, y, Clamp(r)), j - 1)
  }

  /** The loop either runs all n passes, or stops at a clamped iterate that
      is settled. */
  lemma {:induction false} NewtonOutcome(lib: FloatLib, k: ShCoefficients, y: real, r: real, n: nat)
    ensures Newton(lib, k, y, r, n) == Iterate(lib, k, y, r, n) ||
      exists j :: 0 <= j < n &&
        Newton(lib, k, y, r, n) == Clamp(Iterate(lib, k, y, r, j)) &&
        Settled(lib, k, y, Clamp(Iterate(lib, k, y, r, j)))
    decreases n
  {
    if n > 0 {
      var rc := Clamp(r);
      if Settled(lib, k, y, rc) {
        assert Iterate(lib, k, y, r, 0) == r;
        assert Newton(lib, k, y, r, n) == Clamp(Iterate(lib, k, y, r, 0));
      } else {
        var r1 := Next(lib, k, y, rc);
        NewtonOutcome(lib, k, y, r1, n - 1);
        assert Iterate(lib, k, y, r, n) == Iterate(lib, k, y, r1, n - 1);
        if Newton(lib, k, y, r1, n - 1) != Iterate(lib, k, y, r1, n - 1) {
          var j :| 0 <= j < n - 1 &&
            Newton(lib, k, y, r1, n - 1) == Clamp(Iterate(lib, k, y, r1, j)) &&
            Settled(lib, k, y, Clamp(Iterate(lib, k, y, r1, j)));
          assert Iterate(lib, k, y, r, j + 1) == Iterate(lib, k, y, r1, j);
        }
      }
    }
  }

  /** A loop none of whose first n clamped iterates is settled runs all n
      passes and ends on the n-th iterate. */
  lemma {:induction false} NewtonRunsOut(lib: FloatLib, k: ShCoefficients, y: real, r: real, n: nat)
    requires forall j :: 0 <= j < n ==> !Settled(lib, k, y, Clamp(Iterate(lib, k, y, r, j)))
    ensures Newton(lib, k, y, r, n) == Iterate(lib, k, y, r, n)
    decreases n
  {
    if n > 0 {
      assert Iterate(lib, k, y, r, 0) == r;
      var r1 := Next(lib, k, y, Clamp(r));
      forall j | 0 <= j < n - 1
        ensures !Settled(lib, k, y, Clamp(Iterate(lib, k, y, r1, j)))
      {
        IterateShift(lib, k, y, r, j + 1);
      }
      NewtonRunsOut(lib, k, y, r1, n - 1);
    }
  }

  /** The loop stops at the first settled clamped iterate, never later. */
  lemma {:induction false} NewtonStopsAtFirst(lib: FloatLib, k: ShCoefficients, y: real, r: real, n: nat, j: nat)
    requires j < n
    requires Settled(lib, k, y, Clamp(Iterate(lib, k, y, r, j)))
    requires forall i :: 0 <= i < j ==> !Settled(lib, k, y, Clamp(Iterate(lib, k, y, r, i)))
    ensures Newton(lib, k, y, r, n) == Clamp(Iterate(lib, k, y, r, j))
    decreases j
  {
    assert Iterate(lib, k, y, r, 0) == r;
    if j > 0 {
      var r1 := Next(lib, k, y, Clamp(r));
      IterateShift(lib, k, y, r, j);
      forall i | 0 <= i < j - 1
        ensures !Settled(lib, k, y, Clamp(Iterate(lib, k, y, r1, i)))
      {
        IterateShift(lib, k, y, r, i + 1);
      }
      NewtonStopsAtFirst(lib, k, y, r1, n - 1, j - 1);
    }
  }

  /** Pass j from r is pass j − 1 from the iterate after the first pass. */
  lemma IterateShift(lib: FloatLib, k: ShCoefficients, y: real, r: real, j: nat)
    requires j > 0
    ensures Iterate(lib, k, y, r, j) == Iterate(lib, k, y, Next(lib, k, y, Clamp(r)), j - 1)
  {
  }

  lemma RootIsFixedPoint(lib: FloatLib, k: ShCoefficients, y: real, r: real, n: nat)
    requires r > 0.0 && Residual(lib, k, y, r) == 0.0
    requires n > 0
    ensures Newton(lib, k, y, r, n) == r
  {
    assert Next(lib, k, y, r) == r;
  }

  /** Where the loop stopped at a point with non-zero slope, the residual is
      below the tolerance times the slope. */
  lemma SettledResidualBound(lib: FloatLib, k: ShCoefficients, y: real, r: real)
    requires r > 0.0 && Settled(lib, k, y, r) && Slope(lib, k, r) != 0.0
    ensures Abs(Residual(lib, k, y, r)) < Tolerance * Abs(Slope(lib, k, r))
  {
    var f, df := Residual(lib, k, y, r), Slope(lib, k, r);
    var s := Step(f, df);
    assert Abs(s) < Tolerance;
    assert f == s * df;
    AbsProduct(s, df);
    BelowScaled(Abs(f), Abs(s), Tolerance, Abs(df));
  }

  lemma AbsProduct(x: real, y: real)
    ensures Abs(x * y) == Abs(x) * Abs(y)
  {
    if x < 0.0 {
      assert x * y == -((-x) * y);
    }
    if y < 0.0 {
      assert x * y == -(x * (-y));
    }
  }

  lemma BelowScaled(x: real, a: real, b: real, c: real)
    requires x == a * c && a < b && c > 0.0
    ensures x < b * c
  {
    assert b * c - x == (b - a) * c;
  }

  /** sh_R_from_T as a value: 1.0 / T_k raises ZeroDivisionError at
      T = -273.15 °C; otherwise the final R, never below the floor. */
  function RFromT(lib: FloatLib, k: ShCoefficients, tC: real): (res: Result<real>)
    ensures res.Err? <==> CToK(tC) == 0.0
    ensures res.Err? ==> res.error == ZeroDivision
    ensures res.Ok? ==> res.value >= MinResistance
    ensures res.Ok? ==> res.value >= Newton(lib, k, 1.0 / CToK(tC), Seed, MaxIterations)
    ensures res.Ok? ==>
      (res.value == MinResistance || res.value == Newton(lib, k, 1.0 / CToK(tC), Seed, MaxIterations))
  {
    var y :- Div(1.0, CToK(tC));
    Ok(Max(Newton(lib, k, y, Seed, MaxIterations), MinResistance))
  }

  /** The evaluation TFromR undoes the inversion wherever the iteration
      ended on a root: T → R → T is the identity. */
  lemma RootRoundTrip(lib: FloatLib, k: ShCoefficients, tC: real)
    requires CToK(tC) > 0.0
    requires RFromT(lib, k, tC).Ok?
    requires var r := RFromT(lib, k, tC).value;
      Residual(lib, k, 1.0 / CToK(tC), r) == 0.0
    ensures TFromR(lib, k, RFromT(lib, k, tC).value) == Ok(tC)
  {
    RootEvaluates(lib, k, tC, RFromT(lib, k, tC).value);
  }

  /** TFromR at a root of the residual for temperature tC gives back tC. */
  lemma RootEvaluates(lib: FloatLib, k: ShCoefficients, tC: real, r: real)
    requires CToK(tC) > 0.0 && r > 0.0
    requires Residual(lib, k, 1.0 / CToK(tC), r) == 0.0
    ensures TFromR(lib, k, r) == Ok(tC)
  {
    var tK := CToK(tC);
    var y := 1.0 / tK;
    assert y * tK == 1.0;
    assert InverseTemperature(k, Log(lib, r)) == y;
    KelvinInverse(tK, y);
  }

  /** One pass of the loop: stop at the clamped value, or go on from the next one. */
  lemma NewtonPass(lib: FloatLib, k: ShCoefficients, y: real, r: real, n: nat)
    requires n > 0
    ensures Settled(lib, k, y, Clamp(r)) ==> Newton(lib, k, y, r, n) == Clamp(r)
    ensures !Settled(lib, k, y, Clamp(r)) ==>
      Newton(lib, k, y, r, n) == Newton(lib, k, y, Next(lib, k, y, Clamp(r)), n - 1)
  {
  }

  /** sh_R_from_T, pass by pass. */
  method ComputeRFromT(lib: FloatLib, k: ShCoefficients, tC: real) returns (res: Result<real>)
    ensures res == RFromT(lib, k, tC)
  {
    var tK := CToK(tC);
    if tK == 0.0 {
      return Err(ZeroDivision);
    }
    var y := 1.0 / tK;
    ghost var final := Newton(lib, k, y, Seed, MaxIterations);
    assert RFromT(lib, k, tC) == Ok(Max(final, MinResistance));
    var r := Seed;
    var i := 0;
    while i < MaxIterations
      invariant 0 <= i <= MaxIterations
      invariant Newton(lib, k, y, r, MaxIterations - i) == final
    {
      ghost var entry := r;
      if r <= 0.0 {
        r := 1.0;
      }
      var f := Residual(lib, k, y, r);
      var df := Slope(lib, k, r);
      var step := Step(f, df);
      var rNew := r - step;
      assert r == Clamp(entry) && rNew == Next(lib, k, y, r);
      NewtonPass(lib, k, y, entry, MaxIterations - i);
      if Abs(rNew - r) < Tolerance {
        assert r == final;
        return Ok(Max(r, MinResistance));
      }
      r := rNew;
      i := i + 1;
    }
    assert r == final;
    return Ok(Max(r, MinResistance));
  }
}
