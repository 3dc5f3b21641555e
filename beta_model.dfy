/** The β model R(T) = R25 · exp(β (1/T − 1/T25)), T in kelvin: the fit of
    β from two pairs and of R25 as a mean over all pairs, and both
    directions of the model. */
module BetaModel {
  import opened Results
  import opened Numerics

  datatype BetaCoefficients = BetaCoefficients(beta: real, r25: real)

  /** 1/T − 1/T25 for a temperature in kelvin. */
  function Offset(tK: real): real
    requires tK != 0.0
  {
    1.0 / tK - 1.0 / K25
  }

  /** The model's exponent β (1/T − 1/T25). */
  function Exponent(beta: real, tK: real): real
    requires tK != 0.0
  {
    beta * Offset(tK)
  }

  /** β = ln(R1/R2) / (1/T1 − 1/T2), evaluated left to right with the
      exceptions Python raises on the way. */
  function TwoPointBeta(lib: FloatLib, r1: real, r2: real, t1K: real, t2K: real): (res: Result<real>)
    ensures r2 == 0.0 ==> res == Err(ZeroDivision)
    ensures r2 != 0.0 && r1 / r2 <= 0.0 ==> res == Err(MathDomain)
    ensures r2 != 0.0 && r1 / r2 > 0.0 && (t1K == 0.0 || t2K == 0.0) ==> res == Err(ZeroDivision)
    ensures r2 != 0.0 && r1 / r2 > 0.0 && t1K != 0.0 && t2K != 0.0 ==>
      (res.Err? <==> t1K == t2K)
    ensures r2 != 0.0 && r1 / r2 > 0.0 && t1K != 0.0 && t2K != 0.0 && t1K == t2K ==>
      res == Err(ZeroDivision)
    ensures res.Err? ==> res.error == ZeroDivision || res.error == MathDomain
    ensures res.Ok? ==>
      (r2 != 0.0 && r1 / r2 > 0.0 && t1K != 0.0 && t2K != 0.0 &&
       res.value * (1.0 / t1K - 1.0 / t2K) == Log(lib, r1 / r2))
  {
    var ratio :- Div(r1, r2);
    var l :- CheckedLog(lib, ratio);
    var i1 :- Div(1.0, t1K);
    var i2 :- Div(1.0, t2K);
    assert i1 == 1.0 / t1K && i2 == 1.0 / t2K;
    assert i1 - i2 == 0.0 <==> t1K == t2K by {
      ReciprocalInjective(t1K, t2K);
    }
    Div(l, i1 - i2)
  }

  lemma ReciprocalInjective(x: real, y: real)
    requires x != 0.0 && y != 0.0
    ensures 1.0 / x == 1.0 / y <==> x == y
  {
    if 1.0 / x == 1.0 / y {
      assert x == 1.0 / (1.0 / x);
    }
  }

  /** One pair's estimate of R25: R_i · exp(−β (1/T_i − 1/T25)). */
  function R25Term(lib: FloatLib, beta: real, r: real, tK: real): real
    requires tK != 0.0
  {
    r * Exp(lib, -Exponent(beta, tK))
  }

  /** The estimates of R25 over the pairs zip() forms; the first pair at
      −273.15 °C raises ZeroDivisionError. */
  function R25Terms(lib: FloatLib, beta: real, rs: seq<real>, ts: seq<real>): (res: Result<seq<real>>)
    ensures res.Err? <==> exists i :: 0 <= i < Min(|rs|, |ts|) && CToK(ts[i]) == 0.0
    ensures res.Err? ==> res.error == ZeroDivision
    ensures res.Ok? ==> |res.value| == Min(|rs|, |ts|)
    ensures res.Ok? ==> forall i :: 0 <= i < |res.value| ==>
      CToK(ts[i]) != 0.0 && res.value[i] == R25Term(lib, beta, rs[i], CToK(ts[i]))
    decreases |rs|
  {
    if rs == [] || ts == [] then Ok([])
    else
      var tK := CToK(ts[0]);
      if tK == 0.0 then Err(ZeroDivision)
      else
        var rest := R25Terms(lib, beta, rs[1..], ts[1..]);
        if rest.Err? then
          ghost var j :| 0 <= j < Min(|rs| - 1, |ts| - 1) && CToK(ts[1..][j]) == 0.0;
          assert CToK(ts[j + 1]) == 0.0;
          Err(ZeroDivision)
        else
          Ok([R25Term(lib, beta, rs[0], tK)] + rest.value)
  }

  /** compute_beta_R25: at least two pairs; β from the first two, R25 as the
      mean of every pair's estimate. */
  function BetaFit(lib: FloatLib, rs: seq<real>, ts: seq<real>): (res: Result<BetaCoefficients>)
    ensures |rs| < 2 || |ts| < 2 ==> res == Err(TooFewPairs)
    ensures res.Ok? ==> |rs| >= 2 && |ts| >= 2
    ensures res.Err? && |rs| >= 2 && |ts| >= 2 ==> res.error == ZeroDivision || res.error == MathDomain
    ensures |rs| >= 2 && |ts| >= 2 ==>
      var beta := TwoPointBeta(lib, rs[0], rs[1], CToK(ts[0]), CToK(ts[1]));
      (res.Ok? <==> beta.Ok? && R25Terms(lib, beta.value, rs, ts).Ok?)
    ensures |rs| >= 2 && |ts| >= 2 ==>
      var beta := TwoPointBeta(lib, rs[0], rs[1], CToK(ts[0]), CToK(ts[1]));
      (beta.Err? ==> res == Err(beta.error)) &&
      (beta.Ok? && R25Terms(lib, beta.value, rs, ts).Err? ==> res == Err(R25Terms(lib, beta.value, rs, ts).error))
    ensures res.Ok? ==> TwoPointBeta(lib, rs[0], rs[1], CToK(ts[0]), CToK(ts[1])) == Ok(res.value.beta)
    ensures res.Ok? ==> R25Terms(lib, res.value.beta, rs, ts).Ok?
    ensures res.Ok? ==>
      |R25Terms(lib, res.value.beta, rs, ts).value| == Min(|rs|, |ts|) &&
      res.value.r25 == Mean(R25Terms(lib, res.value.beta, rs, ts).value)
  {
    if |rs| < 2 || |ts| < 2 then Err(TooFewPairs)
    else
      var beta :- TwoPointBeta(lib, rs[0], rs[1], CToK(ts[0]), CToK(ts[1]));
      var terms :- R25Terms(lib, beta, rs, ts);
      Ok(BetaCoefficients(beta, Mean(terms)))
  }

  /** β is decided by the first two pairs: fits that agree on them agree on β. */
  lemma BetaIgnoresLaterPairs(lib: FloatLib, rs: seq<real>, ts: seq<real>, rs': seq<real>, ts': seq<real>)
    requires BetaFit(lib, rs, ts).Ok? && BetaFit(lib, rs', ts').Ok?
    requires rs[..2] == rs'[..2] && ts[..2] == ts'[..2]
    ensures BetaFit(lib, rs, ts).value.beta == BetaFit(lib, rs', ts').value.beta
  {
    assert rs[0] == rs[..2][0] && rs[1] == rs[..2][1] && rs'[0] == rs'[..2][0] && rs'[1] == rs'[..2][1];
    assert ts[0] == ts[..2][0] && ts[1] == ts[..2][1] && ts'[0] == ts'[..2][0] && ts'[1] == ts'[..2][1];
  }

  /** compute_beta_R25, with its accumulation loop. */
  method ComputeBetaR25(lib: FloatLib, rs: seq<real>, ts: seq<real>) returns (res: Result<BetaCoefficients>)
    ensures res == BetaFit(lib, rs, ts)
  {
    if |rs| < 2 || |ts| < 2 {
      return Err(TooFewPairs);
    }
    var twoPoint := TwoPointBeta(lib, rs[0], rs[1], CToK(ts[0]), CToK(ts[1]));
    if twoPoint.Err? {
      return Err(twoPoint.error);
    }
    var beta := twoPoint.value;
    var n := Min(|rs|, |ts|);
    var terms: seq<real> := [];
    var i := 0;
    while i < n
      invariant 0 <= i <= n
      invariant |terms| == i
      invariant forall j :: 0 <= j < i ==>
        CToK(ts[j]) != 0.0 && terms[j] == R25Term(lib, beta, rs[j], CToK(ts[j]))
    {
      var tK := CToK(ts[i]);
      if tK == 0.0 {
        assert R25Terms(lib, beta, rs, ts).Err?;
        return Err(ZeroDivision);
      }
      terms := terms + [R25Term(lib, beta, rs[i], tK)];
      i := i + 1;
    }
    var spec := R25Terms(lib, beta, rs, ts);
    assert spec.Ok?;
    assert spec.value == terms;
    return Ok(BetaCoefficients(beta, Mean(terms)));
  }

  /** R25 lies between any bounds on the per-pair estimates. */
  lemma BetaR25WithinEstimates(lib: FloatLib, rs: seq<real>, ts: seq<real>, lo: real, hi: real)
    requires BetaFit(lib, rs, ts).Ok?
    requires var beta := BetaFit(lib, rs, ts).value.beta;
      forall i :: 0 <= i < Min(|rs|, |ts|) ==>
        CToK(ts[i]) != 0.0 && lo <= R25Term(lib, beta, rs[i], CToK(ts[i])) <= hi
    ensures lo <= BetaFit(lib, rs, ts).value.r25 <= hi
  {
    var bc := BetaFit(lib, rs, ts).value;
    var terms := R25Terms(lib, bc.beta, rs, ts).value;
    assert bc.r25 == Mean(terms);
    MeanWithinBounds(terms, lo, hi);
  }

  /** With positive resistances and an exponential that is positive, R25 is
      positive. */
  lemma BetaR25Positive(lib: FloatLib, rs: seq<real>, ts: seq<real>)
    requires BetaFit(lib, rs, ts).Ok?
    requires forall i :: 0 <= i < |rs| ==> rs[i] > 0.0
    requires forall x :: Exp(lib, x) > 0.0
    ensures BetaFit(lib, rs, ts).value.r25 > 0.0
  {
    var bc := BetaFit(lib, rs, ts).value;
    var terms := R25Terms(lib, bc.beta, rs, ts).value;
    assert bc.r25 == Mean(terms);
    TermsPositive(lib, bc.beta, rs, ts);
    MeanPositive(terms);
  }

  /** Each per-pair estimate is a positive R times a positive exponential. */
  lemma TermsPositive(lib: FloatLib, beta: real, rs: seq<real>, ts: seq<real>)
    requires R25Terms(lib, beta, rs, ts).Ok?
    requires forall i :: 0 <= i < |rs| ==> rs[i] > 0.0
    requires forall x :: Exp(lib, x) > 0.0
    ensures forall i :: 0 <= i < |R25Terms(lib, beta, rs, ts).value| ==> R25Terms(lib, beta, rs, ts).value[i] > 0.0
  {
    var terms := R25Terms(lib, beta, rs, ts).value;
    forall i | 0 <= i < |terms| ensures terms[i] > 0.0 {
      TermPositive(lib, beta, rs[i], CToK(ts[i]));
    }
  }

  lemma TermPositive(lib: FloatLib, beta: real, r: real, tK: real)
    requires tK != 0.0 && r > 0.0 && Exp(lib, -Exponent(beta, tK)) > 0.0
    ensures R25Term(lib, beta, r, tK) > 0.0
  {
  }

  /** The pair (r, tK) lies on the curve with β = b0 and R25 = r0, at a point
      where exp is positive and exp(−x) = 1/exp(x). */
  ghost predicate OnCurve(lib: FloatLib, b0: real, r0: real, r: real, tK: real)
  {
    tK != 0.0 &&
    Exp(lib, Exponent(b0, tK)) > 0.0 &&
    Exp(lib, Exponent(b0, tK)) * Exp(lib, -Exponent(b0, tK)) == 1.0 &&
    r == r0 * Exp(lib, Exponent(b0, tK))
  }

  /** Pairs that lie exactly on a β curve give back that curve's β and R25. */
  lemma BetaFitRecoversCurve(lib: FloatLib, rs: seq<real>, ts: seq<real>, b0: real, r0: real)
    requires |rs| == |ts| >= 2
    requires forall i :: 0 <= i < |ts| ==> CToK(ts[i]) != 0.0
    requires CToK(ts[0]) != CToK(ts[1])
    requires r0 > 0.0
    requires forall i :: 0 <= i < |rs| ==> OnCurve(lib, b0, r0, rs[i], CToK(ts[i]))
    requires rs[1] != 0.0 && rs[0] / rs[1] > 0.0 ==>
      Log(lib, rs[0] / rs[1]) == b0 * (Offset(CToK(ts[0])) - Offset(CToK(ts[1])))
    ensures BetaFit(lib, rs, ts) == Ok(BetaCoefficients(b0, r0))
  {
    CurveBeta(lib, b0, r0, rs[0], rs[1], CToK(ts[0]), CToK(ts[1]));
    CurveTerms(lib, b0, r0, rs, ts);
    MeanOfConstant(R25Terms(lib, b0, rs, ts).value, r0);
  }

  /** Two points of a β curve at distinct temperatures give back its β. */
  lemma CurveBeta(lib: FloatLib, b0: real, r0: real, r1: real, r2: real, t1: real, t2: real)
    requires t1 != t2 && r0 > 0.0
    requires OnCurve(lib, b0, r0, r1, t1) && OnCurve(lib, b0, r0, r2, t2)
    requires r2 != 0.0 && r1 / r2 > 0.0 ==> Log(lib, r1 / r2) == b0 * (Offset(t1) - Offset(t2))
    ensures TwoPointBeta(lib, r1, r2, t1, t2) == Ok(b0)
  {
    assert r2 > 0.0 && r1 > 0.0;
    PositiveQuotient(r1, r2);
    var beta := TwoPointBeta(lib, r1, r2, t1, t2);
    ReciprocalInjective(t1, t2);
    assert beta.Ok?;
    assert Offset(t1) - Offset(t2) == 1.0 / t1 - 1.0 / t2;
    QuotientUnique(beta.value, b0, 1.0 / t1 - 1.0 / t2);
  }

  /** Every point of a β curve estimates its R25 exactly. */
  lemma CurveTerms(lib: FloatLib, b0: real, r0: real, rs: seq<real>, ts: seq<real>)
    requires |rs| == |ts|
    requires forall i :: 0 <= i < |rs| ==> OnCurve(lib, b0, r0, rs[i], CToK(ts[i]))
    ensures R25Terms(lib, b0, rs, ts).Ok?
    ensures forall i :: 0 <= i < |R25Terms(lib, b0, rs, ts).value| ==> R25Terms(lib, b0, rs, ts).value[i] == r0
  {
    var terms := R25Terms(lib, b0, rs, ts);
    assert terms.Ok?;
    forall i | 0 <= i < |terms.value| ensures terms.value[i] == r0 {
      CurveTerm(lib, b0, r0, rs[i], CToK(ts[i]));
    }
  }

  lemma CurveTerm(lib: FloatLib, b0: real, r0: real, r: real, tK: real)
    requires OnCurve(lib, b0, r0, r, tK)
    ensures R25Term(lib, b0, r, tK) == r0
  {
    var e := Exp(lib, Exponent(b0, tK));
    var f := Exp(lib, -Exponent(b0, tK));
    assert R25Term(lib, b0, r, tK) == (r0 * e) * f;
    assert (r0 * e) * f == r0 * (e * f);
  }

  lemma PositiveQuotient(x: real, y: real)
    requires x > 0.0 && y > 0.0
    ensures x / y > 0.0
  {
  }

  lemma QuotientUnique(q: real, p: real, d: real)
    requires d != 0.0 && q * d == p * d
    ensures q == p
  {
  }

  lemma MeanOfConstant(s: seq<real>, c: real)
    requires |s| > 0
    requires forall i :: 0 <= i < |s| ==> s[i] == c
    ensures Mean(s) == c
  {
    MeanWithinBounds(s, c, c);
  }

  /** beta_R_from_T: 1.0 / T_k raises at −273.15 °C. */
  function RFromT(lib: FloatLib, bc: BetaCoefficients, tC: real): (res: Result<real>)
    ensures res.Err? <==> CToK(tC) == 0.0
    ensures res.Err? ==> res.error == ZeroDivision
  {
    if CToK(tC) == 0.0 then Err(ZeroDivision)
    else Ok(bc.r25 * Exp(lib, Exponent(bc.beta, CToK(tC))))
  }

  /** beta_T_from_R: the divisions by β and R25 and math.log may raise, and a
      non-positive 1/T is rejected. A result satisfies the model equation
      β (1/T − 1/T25) = ln(R/R25). */
  function TFromR(lib: FloatLib, bc: BetaCoefficients, r: real): (res: Result<real>)
    ensures bc.beta == 0.0 ==> res == Err(ZeroDivision)
    ensures bc.beta != 0.0 && bc.r25 == 0.0 ==> res == Err(ZeroDivision)
    ensures bc.beta != 0.0 && bc.r25 != 0.0 && r / bc.r25 <= 0.0 ==> res == Err(MathDomain)
    ensures bc.beta != 0.0 && bc.r25 != 0.0 && r / bc.r25 > 0.0 ==>
      (res.Err? <==> 1.0 / K25 + Log(lib, r / bc.r25) / bc.beta <= 0.0)
    ensures bc.beta != 0.0 && bc.r25 != 0.0 && r / bc.r25 > 0.0 && res.Err? ==>
      res.error == NonPhysical
    ensures res.Ok? ==>
      (bc.beta != 0.0 && bc.r25 != 0.0 && r / bc.r25 > 0.0 && CToK(res.value) > 0.0 &&
       Exponent(bc.beta, CToK(res.value)) == Log(lib, r / bc.r25))
  {
    var invBeta :- Div(1.0, bc.beta);
    var ratio :- Div(r, bc.r25);
    var l :- CheckedLog(lib, ratio);
    var invT := 1.0 / K25 + invBeta * l;
    assert invBeta * l == l / bc.beta;
    if invT <= 0.0 then Err(NonPhysical)
    else
      var tC := KToC(1.0 / invT);
      assert Offset(CToK(tC)) == invBeta * l by {
        ReciprocalInvolution(invT);
      }
      assert invBeta * bc.beta == 1.0;
      assert bc.beta * (invBeta * l) == (invBeta * bc.beta) * l;
      Ok(tC)
  }

  lemma ReciprocalInvolution(inv: real)
    requires inv > 0.0
    ensures 1.0 / (1.0 / inv) == inv
  {
  }

  /** A model with positive R25 predicts a positive resistance wherever
      the exponential is positive. */
  lemma RFromTPositive(lib: FloatLib, bc: BetaCoefficients, tC: real)
    requires CToK(tC) != 0.0 && bc.r25 > 0.0
    requires Exp(lib, Exponent(bc.beta, CToK(tC))) > 0.0
    ensures RFromT(lib, bc, tC).Ok? && RFromT(lib, bc, tC).value > 0.0
  {
    var e := Exp(lib, Exponent(bc.beta, CToK(tC)));
    assert RFromT(lib, bc, tC).Ok? && RFromT(lib, bc, tC).value == bc.r25 * e;
    assert bc.r25 * e > 0.0;
  }

  /** T → R → T is the identity wherever ln undoes exp and the model is
      non-degenerate. */
  lemma RoundTripFromTemperature(lib: FloatLib, bc: BetaCoefficients, tC: real)
    requires CToK(tC) > 0.0 && bc.beta != 0.0 && bc.r25 > 0.0
    requires var x := Exponent(bc.beta, CToK(tC));
      Exp(lib, x) > 0.0 && Log(lib, Exp(lib, x)) == x
    ensures RFromT(lib, bc, tC).Ok?
    ensures TFromR(lib, bc, RFromT(lib, bc, tC).value) == Ok(tC)
  {
    var tK := CToK(tC);
    var x := Exponent(bc.beta, tK);
    var e := Exp(lib, x);
    assert RFromT(lib, bc, tC).Ok? && RFromT(lib, bc, tC).value == bc.r25 * e;
    var r := bc.r25 * e;
    assert r / bc.r25 == e;
    assert Log(lib, r / bc.r25) == x;
    assert x / bc.beta == Offset(tK);
    assert 1.0 / K25 + x / bc.beta == 1.0 / tK;
    var res := TFromR(lib, bc, r);
    assert res.Ok?;
    assert Exponent(bc.beta, CToK(res.value)) == Exponent(bc.beta, tK);
    assert Offset(CToK(res.value)) == Offset(tK);
    OffsetInjective(CToK(res.value), tK);
  }

  lemma OffsetInjective(x: real, y: real)
    requires x != 0.0 && y != 0.0 && Offset(x) == Offset(y)
    ensures x == y
  {
    ReciprocalInjective(x, y);
  }

  /** R → T → R is the identity wherever exp undoes ln. */
  lemma RoundTripFromResistance(lib: FloatLib, bc: BetaCoefficients, r: real)
    requires TFromR(lib, bc, r).Ok?
    requires bc.r25 != 0.0 && r / bc.r25 > 0.0 && Exp(lib, Log(lib, r / bc.r25)) == r / bc.r25
    ensures RFromT(lib, bc, TFromR(lib, bc, r).value) == Ok(r)
  {
    var tC := TFromR(lib, bc, r).value;
    var tK := CToK(tC);
    var l := Log(lib, r / bc.r25);
    assert Exponent(bc.beta, tK) == l;
    assert RFromT(lib, bc, tC).Ok? && RFromT(lib, bc, tC).value == bc.r25 * Exp(lib, l);
    assert Exp(lib, l) == r / bc.r25;
    assert bc.r25 * (r / bc.r25) == r;
    assert RFromT(lib, bc, tC).value == r;
  }
}
