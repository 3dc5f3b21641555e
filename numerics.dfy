/** The numeric vocabulary shared by both calibration models: temperature
    scales, the floating-point library calls (left uninterpreted) and the
    checks Python makes when they are called outside their domain. */
module Numerics {
  import opened Results

  /** Offset between the Celsius and the Kelvin scale. */
  const ZeroCelsius: real := 273.15

  /** Reference temperature of the β model: 25 °C in kelvin. */
  const K25: real := ZeroCelsius + 25.0

  /** c_to_k */
  function CToK(tC: real): (tK: real)
    ensures tK > 0.0 <==> tC > -ZeroCelsius
  {
    tC + ZeroCelsius
  }

  /** k_to_c: the inverse of CToK. */
  function KToC(tK: real): (tC: real)
    ensures CToK(tC) == tK
  {
    tK - ZeroCelsius
  }

  lemma KelvinRoundTrip(t: real)
    ensures KToC(CToK(t)) == t
    ensures CToK(KToC(t)) == t
  {
  }

  /** The transcendental functions of Python's math module and numpy.
      Nothing is assumed about them; a lemma that needs a property of one
      of them states it as a hypothesis about the values involved. */
  datatype FloatLib = FloatLib(
    ln: real -> real,     // natural logarithm, meaningful on positive reals
    exp: real -> real,    // exponential
    nonFinite: real)      // stands for the inf or nan numpy yields outside a domain

  /** math.log: only ever applied to a positive argument. */
  function Log(lib: FloatLib, x: real): real
    requires x > 0.0
  {
    lib.ln(x)
  }

  /** math.exp; its overflow is not modelled. */
  function Exp(lib: FloatLib, x: real): real
  {
    lib.exp(x)
  }

  /** math.log together with the ValueError it raises for x <= 0. */
  function CheckedLog(lib: FloatLib, x: real): (r: Result<real>)
    ensures r.Err? <==> x <= 0.0
    ensures r.Err? ==> r.error == MathDomain
    ensures r.Ok? ==> x > 0.0 && r.value == Log(lib, x)
  {
    if x <= 0.0 then Err(MathDomain) else Ok(Log(lib, x))
  }

  /** Python float division together with its ZeroDivisionError. */
  function Div(a: real, b: real): (r: Result<real>)
    ensures r.Err? <==> b == 0.0
    ensures r.Err? ==> r.error == ZeroDivision
    ensures r.Ok? ==> r.value * b == a
  {
    if b == 0.0 then Err(ZeroDivision) else Ok(a / b)
  }

  /** numpy.log on one element: no exception, a non-finite value for x <= 0. */
  function NpLog(lib: FloatLib, x: real): real
  {
    if x > 0.0 then Log(lib, x) else lib.nonFinite
  }

  /** 1.0 / x on one numpy element: no exception, a non-finite value for x == 0. */
  function NpReciprocal(lib: FloatLib, x: real): (r: real)
    ensures x != 0.0 ==> r * x == 1.0
  {
    if x != 0.0 then 1.0 / x else lib.nonFinite
  }

  function Abs(x: real): real
  {
    if x < 0.0 then -x else x
  }

  function Max(x: real, y: real): (m: real)
    ensures m >= x && m >= y && (m == x || m == y)
  {
    if x >= y then x else y
  }

  function Min(m: nat, n: nat): (k: nat)
    ensures k <= m && k <= n && (k == m || k == n)
  {
    if m <= n then m else n
  }

  function Sum(s: seq<real>): real
  {
    if s == [] then 0.0 else Sum(s[..|s| - 1]) + s[|s| - 1]
  }

  /** numpy.mean of a non-empty list. */
  function Mean(s: seq<real>): real
    requires |s| > 0
  {
    Sum(s) / (|s| as real)
  }

  lemma {:induction false} SumBounds(s: seq<real>, lo: real, hi: real)
    requires forall i :: 0 <= i < |s| ==> lo <= s[i] <= hi
    ensures (|s| as real) * lo <= Sum(s) <= (|s| as real) * hi
  {
    if s != [] {
      SumBounds(s[..|s| - 1], lo, hi);
    }
  }

  /** The mean of a list lies between any lower and upper bound of its elements. */
  lemma MeanWithinBounds(s: seq<real>, lo: real, hi: real)
    requires |s| > 0
    requires forall i :: 0 <= i < |s| ==> lo <= s[i] <= hi
    ensures lo <= Mean(s) <= hi
  {
    SumBounds(s, lo, hi);
    var n := |s| as real;
    assert Mean(s) * n == Sum(s);
  }

  lemma {:induction false} SumPositive(s: seq<real>)
    requires |s| > 0
    requires forall i :: 0 <= i < |s| ==> s[i] > 0.0
    ensures Sum(s) > 0.0
  {
    if |s| > 1 {
      SumPositive(s[..|s| - 1]);
    }
  }

  /** The mean of positive values is positive. */
  lemma MeanPositive(s: seq<real>)
    requires |s| > 0
    requires forall i :: 0 <= i < |s| ==> s[i] > 0.0
    ensures Mean(s) > 0.0
  {
    SumPositive(s);
  }
}
