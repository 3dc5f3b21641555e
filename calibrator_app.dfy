/** The calibrator window's state behind its buttons: the six R–T entries,
    the cached coefficients, and the Compute, Reset and calculator actions
    that read and update them. */
module CalibratorApp {
  import opened Results
  import opened Numerics
  import opened LocaleNumber
  import SH = SteinhartHart
  import Beta = BetaModel

  /** Everything the window calls that the model leaves uninterpreted: the
      transcendental functions, numpy.linalg and Python's float(). */
  datatype Platform = Platform(
    lib: FloatLib,
    la: SH.LinearAlgebra,
    toFloat: string -> Option<real>)

  /** The _coeffs dictionary: the five coefficients, each possibly None. */
  datatype Coefficients = Coefficients(
    a: Option<real>, b: Option<real>, c: Option<real>,
    beta: Option<real>, r25: Option<real>)
  {
    predicate Complete()
    {
      a.Some? && b.Some? && c.Some? && beta.Some? && r25.Some?
    }
  }

  /** The dictionary the window starts with and that Reset restores. */
  const Unset: Coefficients := Coefficients(None, None, None, None, None)

  /** The entries the window starts with and that Reset restores. */
  const DefaultResistances: seq<string> := ["25000", "10000", "4000"]
  const DefaultTemperatures: seq<string> := ["5", "25", "45"]

  function FromFits(sh: SH.ShCoefficients, bc: Beta.BetaCoefficients): (k: Coefficients)
    ensures k.Complete()
    ensures ShPart(k) == sh && BetaPart(k) == bc
  {
    Coefficients(Some(sh.a), Some(sh.b), Some(sh.c), Some(bc.beta), Some(bc.r25))
  }

  function ShPart(k: Coefficients): SH.ShCoefficients
    requires k.Complete()
  {
    SH.ShCoefficients(k.a.value, k.b.value, k.c.value)
  }

  function BetaPart(k: Coefficients): Beta.BetaCoefficients
    requires k.Complete()
  {
    Beta.BetaCoefficients(k.beta.value, k.r25.value)
  }

  /** norm_float applied to every entry of a column. */
  function Readings(toFloat: string -> Option<real>, texts: seq<string>): seq<Result<real>>
  {
    seq(|texts|, i requires 0 <= i < |texts| => NormFloat(toFloat, texts[i]))
  }

  /** [norm_float(v) for v in texts]: the first entry that fails decides the error. */
  function ParseAll(toFloat: string -> Option<real>, texts: seq<string>): Result<seq<real>>
  {
    Collect(Readings(toFloat, texts))
  }

  /** A parsed column holds norm_float's reading of each entry. */
  lemma ParsedEntry(toFloat: string -> Option<real>, texts: seq<string>, i: nat)
    requires ParseAll(toFloat, texts).Ok? && i < |texts|
    ensures |ParseAll(toFloat, texts).value| == |texts|
    ensures NormFloat(toFloat, texts[i]) == Ok(ParseAll(toFloat, texts).value[i])
  {
    assert Readings(toFloat, texts)[i] == NormFloat(toFloat, texts[i]);
  }

  /** A column that fails to parse reports the error of its first entry
      that norm_float rejects. */
  lemma ParseFailure(toFloat: string -> Option<real>, texts: seq<string>)
    requires ParseAll(toFloat, texts).Err?
    ensures exists i :: (0 <= i < |texts| &&
                         NormFloat(toFloat, texts[i]) == Err(ParseAll(toFloat, texts).error) &&
                         forall j :: 0 <= j < i ==> NormFloat(toFloat, texts[j]).Ok?)
  {
    var rs := Readings(toFloat, texts);
    var i :| 0 <= i < |rs| && rs[i] == Err(Collect(rs).error) && (forall j :: 0 <= j < i ==> rs[j].Ok?);
    assert rs[i] == NormFloat(toFloat, texts[i]);
    forall j | 0 <= j < i
      ensures NormFloat(toFloat, texts[j]).Ok?
    {
      assert rs[j] == NormFloat(toFloat, texts[j]);
    }
  }

  datatype Pairs = Pairs(rs: seq<real>, ts: seq<real>)

  /** parse_inputs: every resistance, then every temperature, then the
      check that the resistances are positive. */
  function ParseInputs(toFloat: string -> Option<real>, rTexts: seq<string>, tTexts: seq<string>): (r: Result<Pairs>)
    ensures r.Ok? ==> ParseAll(toFloat, rTexts) == Ok(r.value.rs) && ParseAll(toFloat, tTexts) == Ok(r.value.ts)
    ensures r.Ok? ==> forall i :: 0 <= i < |r.value.rs| ==> r.value.rs[i] > 0.0
    ensures ParseAll(toFloat, rTexts).Err? ==> r == Err(ParseAll(toFloat, rTexts).error)
    ensures ParseAll(toFloat, rTexts).Ok? && ParseAll(toFloat, tTexts).Err? ==>
      r == Err(ParseAll(toFloat, tTexts).error)
    ensures ParseAll(toFloat, rTexts).Ok? && ParseAll(toFloat, tTexts).Ok? ==>
      (r.Err? <==> exists i :: 0 <= i < |rTexts| && ParseAll(toFloat, rTexts).value[i] <= 0.0)
    ensures ParseAll(toFloat, rTexts).Ok? && ParseAll(toFloat, tTexts).Ok? && r.Err? ==>
      r.error == NonPositiveResistance
  {
    var rs :- ParseAll(toFloat, rTexts);
    var ts :- ParseAll(toFloat, tTexts);
    if exists i :: 0 <= i < |rs| && rs[i] <= 0.0 then Err(NonPositiveResistance)
    else Ok(Pairs(rs, ts))
  }

  /** What Compute stores: both fits on the parsed entries, the
      Steinhart–Hart fit first. */
  function Calibrate(p: Platform, rTexts: seq<string>, tTexts: seq<string>): (r: Result<Coefficients>)
    ensures r.Ok? ==> r.value.Complete()
    ensures r.Ok? ==> |rTexts| == 3 && |tTexts| == 3 && ParseInputs(p.toFloat, rTexts, tTexts).Ok?
  {
    var pairs :- ParseInputs(p.toFloat, rTexts, tTexts);
    FitPairs(p, pairs)
  }

  /** The two fits on parsed pairs; with three pairs neither can fail for
      want of pairs, only on a logarithm or a division. */
  function FitPairs(p: Platform, pairs: Pairs): (r: Result<Coefficients>)
    ensures r.Ok? ==> r.value.Complete() && |pairs.rs| == 3 && |pairs.ts| == 3
    ensures |pairs.rs| == 3 && |pairs.ts| == 3 && r.Err? ==>
      r.error == ZeroDivision || r.error == MathDomain
    ensures var sh, bc := SH.Fit(p.lib, p.la, pairs.rs, pairs.ts), Beta.BetaFit(p.lib, pairs.rs, pairs.ts);
      (r.Ok? <==> sh.Ok? && bc.Ok?) &&
      (r.Ok? ==> ShPart(r.value) == sh.value && BetaPart(r.value) == bc.value) &&
      (sh.Err? ==> r == Err(sh.error)) &&
      (sh.Ok? && bc.Err? ==> r == Err(bc.error))
  {
    var sh :- SH.Fit(p.lib, p.la, pairs.rs, pairs.ts);
    var bc :- Beta.BetaFit(p.lib, pairs.rs, pairs.ts);
    Ok(FromFits(sh, bc))
  }

  /** Compute stores exactly the two fits of the parsed entries: it
      succeeds when parsing and both fits do, with A, B, C from the
      Steinhart–Hart fit and β, R25 from the β fit; otherwise it reports the
      first error in the order parse, Steinhart–Hart, β. */
  lemma CalibrateStoresBothFits(p: Platform, rTexts: seq<string>, tTexts: seq<string>)
    ensures ParseInputs(p.toFloat, rTexts, tTexts).Err? ==>
      Calibrate(p, rTexts, tTexts) == Err(ParseInputs(p.toFloat, rTexts, tTexts).error)
    ensures ParseInputs(p.toFloat, rTexts, tTexts).Ok? ==>
      var pairs := ParseInputs(p.toFloat, rTexts, tTexts).value;
      var sh, bc := SH.Fit(p.lib, p.la, pairs.rs, pairs.ts), Beta.BetaFit(p.lib, pairs.rs, pairs.ts);
      var r := Calibrate(p, rTexts, tTexts);
      (r.Ok? <==> sh.Ok? && bc.Ok?) &&
      (r.Ok? ==> ShPart(r.value) == sh.value && BetaPart(r.value) == bc.value) &&
      (sh.Err? ==> r == Err(sh.error)) &&
      (sh.Ok? && bc.Err? ==> r == Err(bc.error))
  {
  }

  /** The body of on_compute without the window: parse, fit
      Steinhart–Hart, then run compute_beta_R25's loop. */
  method ComputeCoefficients(p: Platform, rTexts: seq<string>, tTexts: seq<string>) returns (r: Result<Coefficients>)
    ensures r == Calibrate(p, rTexts, tTexts)
  {
    var parsed := ParseInputs(p.toFloat, rTexts, tTexts);
    if parsed.Err? {
      return Err(parsed.error);
    }
    ghost var spec := FitPairs(p, parsed.value);
    var sh := SH.Fit(p.lib, p.la, parsed.value.rs, parsed.value.ts);
    if sh.Err? {
      assert spec == Err(sh.error);
      return Err(sh.error);
    }
    var bc := Beta.ComputeBetaR25(p.lib, parsed.value.rs, parsed.value.ts);
    if bc.Err? {
      assert spec == Err(bc.error);
      return Err(bc.error);
    }
    return Ok(FromFits(sh.value, bc.value));
  }

  /** With the window's three rows, neither fit can complain about the
      number of pairs. */
  lemma CalibrateNeverMiscounts(p: Platform, rTexts: seq<string>, tTexts: seq<string>)
    requires |rTexts| == 3 && |tTexts| == 3
    ensures Calibrate(p, rTexts, tTexts).Err? ==>
      Calibrate(p, rTexts, tTexts).error != WrongPairCount &&
      Calibrate(p, rTexts, tTexts).error != TooFewPairs
  {
    var pairs := ParseInputs(p.toFloat, rTexts, tTexts);
    if pairs.Ok? {
      assert |Readings(p.toFloat, rTexts)| == 3 && |Readings(p.toFloat, tTexts)| == 3;
      assert |pairs.value.rs| == 3 && |pairs.value.ts| == 3;
    } else {
      NotCountErrors(p.toFloat, rTexts, tTexts);
    }
  }

  lemma NotCountErrors(toFloat: string -> Option<real>, rTexts: seq<string>, tTexts: seq<string>)
    requires ParseInputs(toFloat, rTexts, tTexts).Err?
    ensures ParseInputs(toFloat, rTexts, tTexts).error in {EmptyNumber, NotANumber, NonPositiveResistance}
  {
    if ParseAll(toFloat, rTexts).Err? {
      ParseFailure(toFloat, rTexts);
    } else if ParseAll(toFloat, tTexts).Err? {
      ParseFailure(toFloat, tTexts);
    }
  }

  /** calc_T_from_R on a parsed resistance: a non-positive R is refused,
      then the chosen model is evaluated. */
  function TemperatureAt(p: Platform, choice: string, k: Coefficients, r: real): (res: Result<real>)
    requires k.Complete()
    ensures r <= 0.0 ==> res == Err(NonPositiveResistance)
    ensures choice == "SH" && res.Err? ==> res.error != MathDomain
    ensures choice == "SH" && res.Ok? ==>
      r > 0.0 && CToK(res.value) * SH.InverseTemperature(ShPart(k), Log(p.lib, r)) == 1.0
    ensures choice != "SH" && res.Ok? ==>
      (r > 0.0 && CToK(res.value) > 0.0 && k.r25.value != 0.0 && r / k.r25.value > 0.0 &&
       Beta.Exponent(k.beta.value, CToK(res.value)) == Log(p.lib, r / k.r25.value))
    ensures r > 0.0 && choice == "SH" ==> res == SH.TFromR(p.lib, ShPart(k), r)
    ensures r > 0.0 && choice != "SH" ==> res == Beta.TFromR(p.lib, BetaPart(k), r)
  {
    if r <= 0.0 then Err(NonPositiveResistance)
    else if choice == "SH" then SH.TFromR(p.lib, ShPart(k), r)
    else Beta.TFromR(p.lib, BetaPart(k), r)
  }

  /** calc_T_from_R once the coefficients are there: the entry is parsed
      and read as a resistance. */
  function TemperatureOf(p: Platform, choice: string, k: Coefficients, text: string): (res: Result<real>)
    requires k.Complete()
    ensures NormFloat(p.toFloat, text).Err? ==> res == Err(NormFloat(p.toFloat, text).error)
    ensures NormFloat(p.toFloat, text).Ok? ==> res == TemperatureAt(p, choice, k, NormFloat(p.toFloat, text).value)
  {
    var r :- NormFloat(p.toFloat, text);
    TemperatureAt(p, choice, k, r)
  }

  /** calc_R_from_T on a parsed temperature. */
  function ResistanceAt(p: Platform, choice: string, k: Coefficients, t: real): (res: Result<real>)
    requires k.Complete()
    ensures res.Err? <==> CToK(t) == 0.0
    ensures res.Err? ==> res.error == ZeroDivision
    ensures choice == "SH" && res.Ok? ==> res.value >= SH.MinResistance
    ensures choice == "SH" && res.Ok? ==>
      res.value >= SH.Newton(p.lib, ShPart(k), 1.0 / CToK(t), SH.Seed, SH.MaxIterations)
    ensures choice == "SH" ==> res == SH.RFromT(p.lib, ShPart(k), t)
    ensures choice != "SH" && res.Ok? ==>
      res.value == k.r25.value * Exp(p.lib, Beta.Exponent(k.beta.value, CToK(t)))
  {
    if choice == "SH" then SH.RFromT(p.lib, ShPart(k), t)
    else Beta.RFromT(p.lib, BetaPart(k), t)
  }

  /** calc_R_from_T once the coefficients are there. */
  function ResistanceOf(p: Platform, choice: string, k: Coefficients, text: string): (res: Result<real>)
    requires k.Complete()
    ensures NormFloat(p.toFloat, text).Err? ==> res == Err(NormFloat(p.toFloat, text).error)
    ensures NormFloat(p.toFloat, text).Ok? ==> res == ResistanceAt(p, choice, k, NormFloat(p.toFloat, text).value)
  {
    var t :- NormFloat(p.toFloat, text);
    ResistanceAt(p, choice, k, t)
  }

  /** A calibration that solved its system exactly reads back each of its
      own resistance entries, in the Steinhart–Hart calculator, as that
      row's temperature. No positivity hypothesis is needed for the
      resistances: the parse has refused non-positive ones. */
  lemma CalculatorReproducesCalibration(p: Platform, rTexts: seq<string>, tTexts: seq<string>, i: nat)
    requires SH.SolveIsExact(p.la)
    requires Calibrate(p, rTexts, tTexts).Ok?
    requires var pairs := ParseInputs(p.toFloat, rTexts, tTexts).value;
      p.la.solve(SH.DesignMatrix(p.lib, pairs.rs), SH.Targets(p.lib, pairs.ts)).Some?
    requires i < 3
    requires CToK(ParseInputs(p.toFloat, rTexts, tTexts).value.ts[i]) > 0.0
    ensures TemperatureOf(p, "SH", Calibrate(p, rTexts, tTexts).value, rTexts[i]) ==
      Ok(ParseInputs(p.toFloat, rTexts, tTexts).value.ts[i])
  {
    var pairs := ParseInputs(p.toFloat, rTexts, tTexts).value;
    var k := Calibrate(p, rTexts, tTexts).value;
    var fit := SH.Fit(p.lib, p.la, pairs.rs, pairs.ts);
    assert fit.Ok? && ShPart(k) == fit.value;
    ParsedEntry(p.toFloat, rTexts, i);
    SH.FitReproducesCalibration(p.lib, p.la, pairs.rs, pairs.ts, i);
  }

  /** The window. The entry texts are public fields: typing into an entry
      is an assignment to one element. */
  class App {
    var rEntries: seq<string>
    var tEntries: seq<string>
    var coeffs: Coefficients

    /** Three rows, and the coefficients either all set or all None. */
    ghost predicate Valid()
      reads this
    {
      |rEntries| == 3 && |tEntries| == 3 && (coeffs.Complete() || coeffs == Unset)
    }

    constructor ()
      ensures Valid()
      ensures rEntries == DefaultResistances && tEntries == DefaultTemperatures
      ensures coeffs == Unset
    {
      rEntries := DefaultResistances;
      tEntries := DefaultTemperatures;
      coeffs := Unset;
    }

    /** on_compute: stores both fits, or reports the error and keeps what
        was stored before. */
    method OnCompute(p: Platform) returns (err: Option<Error>)
      requires Valid()
      modifies this
      ensures Valid()
      ensures rEntries == old(rEntries) && tEntries == old(tEntries)
      ensures match Calibrate(p, rEntries, tEntries)
        case Ok(k) => err == None && coeffs == k
        case Err(e) => err == Some(e) && coeffs == old(coeffs)
    {
      var result := ComputeCoefficients(p, rEntries, tEntries);
      err := Store(result);
    }

    /** The assignment to _coeffs that ends a successful Compute; an error
        leaves _coeffs alone. */
    method Store(result: Result<Coefficients>) returns (err: Option<Error>)
      requires Valid()
      requires result.Ok? ==> result.value.Complete()
      modifies this
      ensures Valid()
      ensures rEntries == old(rEntries) && tEntries == old(tEntries)
      ensures match result
        case Ok(k) => err == None && coeffs == k
        case Err(e) => err == Some(e) && coeffs == old(coeffs)
    {
      match result
      case Err(e) =>
        err := Some(e);
      case Ok(k) =>
        coeffs := k;
        err := None;
    }

    /** on_reset: default entries and no coefficients. */
    method OnReset()
      modifies this
      ensures Valid()
      ensures rEntries == DefaultResistances && tEntries == DefaultTemperatures
      ensures coeffs == Unset
    {
      rEntries := DefaultResistances;
      tEntries := DefaultTemperatures;
      coeffs := Unset;
    }

    /** ensure_coeffs: recomputes only when some coefficient is None. */
    method EnsureCoeffs(p: Platform) returns (err: Option<Error>)
      requires Valid()
      modifies this
      ensures Valid()
      ensures rEntries == old(rEntries) && tEntries == old(tEntries)
      ensures old(coeffs).Complete() ==> err == None && coeffs == old(coeffs)
      ensures !old(coeffs).Complete() ==>
        (match Calibrate(p, rEntries, tEntries)
         case Ok(k) => err == None && coeffs == k
         case Err(e) => err == Some(e) && coeffs == old(coeffs))
      ensures err == None <==> coeffs.Complete()
    {
      if !coeffs.Complete() {
        err := OnCompute(p);
      } else {
        err := None;
      }
    }

    /** calc_T_from_R. */
    method CalcTFromR(p: Platform, choice: string, text: string) returns (res: Result<real>)
      requires Valid()
      modifies this
      ensures Valid()
      ensures rEntries == old(rEntries) && tEntries == old(tEntries)
      ensures old(coeffs).Complete() ==> coeffs == old(coeffs)
      ensures !old(coeffs).Complete() ==>
        (match Calibrate(p, rEntries, tEntries)
         case Ok(k) => coeffs == k
         case Err(_) => coeffs == old(coeffs))
      ensures !coeffs.Complete() ==>
        Calibrate(p, rEntries, tEntries).Err? && res == Err(Calibrate(p, rEntries, tEntries).error)
      ensures coeffs.Complete() ==> res == TemperatureOf(p, choice, coeffs, text)
    {
      var err := EnsureCoeffs(p);
      if err.Some? {
        return Err(err.value);
      }
      ghost var spec := TemperatureOf(p, choice, coeffs, text);
      var r := NormFloat(p.toFloat, text);
      if r.Err? {
        assert spec == Err(r.error);
        return Err(r.error);
      }
      if r.value <= 0.0 {
        return Err(NonPositiveResistance);
      }
      if choice == "SH" {
        res := SH.TFromR(p.lib, ShPart(coeffs), r.value);
      } else {
        res := Beta.TFromR(p.lib, BetaPart(coeffs), r.value);
      }
      assert spec == res;
    }

    /** calc_R_from_T. */
    method CalcRFromT(p: Platform, choice: string, text: string) returns (res: Result<real>)
      requires Valid()
      modifies this
      ensures Valid()
      ensures rEntries == old(rEntries) && tEntries == old(tEntries)
      ensures old(coeffs).Complete() ==> coeffs == old(coeffs)
      ensures !old(coeffs).Complete() ==>
        (match Calibrate(p, rEntries, tEntries)
         case Ok(k) => coeffs == k
         case Err(_) => coeffs == old(coeffs))
      ensures !coeffs.Complete() ==>
        Calibrate(p, rEntries, tEntries).Err? && res == Err(Calibrate(p, rEntries, tEntries).error)
      ensures coeffs.Complete() ==> res == ResistanceOf(p, choice, coeffs, text)
    {
      var err := EnsureCoeffs(p);
      if err.Some? {
        return Err(err.value);
      }
      ghost var spec := ResistanceOf(p, choice, coeffs, text);
      var t := NormFloat(p.toFloat, text);
      if t.Err? {
        assert spec == Err(t.error);
        return Err(t.error);
      }
      if choice == "SH" {
        res := SH.ComputeRFromT(p.lib, ShPart(coeffs), t.value);
      } else {
        res := Beta.RFromT(p.lib, BetaPart(coeffs), t.value);
      }
      assert spec == res;
    }
  }
}
