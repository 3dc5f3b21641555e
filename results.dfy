/** Outcomes of the calibrator's operations: a value, or the exception the
    program raises instead. */
module Results {

  /** A coefficient slot that may still be unset (Python's None). */
  datatype Option<+T> = None | Some(value: T)

  /** Every condition under which the calibrator's numeric code raises. */
  datatype Error =
    | EmptyNumber            // a numeric entry that is blank once stripped
    | NotANumber             // text that float() rejects
    | WrongPairCount         // the Steinhart–Hart fit needs exactly three pairs
    | TooFewPairs            // the β fit needs at least two pairs
    | NonPositiveResistance  // a resistance that is <= 0
    | MathDomain             // math.log of a number <= 0
    | ZeroDivision           // a float division by zero
    | NonPhysical            // an implied 1/T that is <= 0

  /** A value, or the error that stopped its computation; usable with `:-`. */
  datatype Result<+T> = Ok(value: T) | Err(error: Error) {

    predicate IsFailure() {
      Err?
    }

    function PropagateFailure<U>(): Result<U>
      requires Err?
    {
      Err(error)
    }

    function Extract(): T
      requires Ok?
    {
      value
    }
  }

  /** A list built element by element, where the first element that fails
      stops the construction with its error (a Python list comprehension
      over a call that may raise). */
  function Collect<T>(rs: seq<Result<T>>): (r: Result<seq<T>>)
    ensures r.Ok? ==> |r.value| == |rs| && forall i :: 0 <= i < |rs| ==> rs[i] == Ok(r.value[i])
    ensures r.Err? ==>
      exists i :: 0 <= i < |rs| && rs[i] == Err(r.error) && (forall j :: 0 <= j < i ==> rs[j].Ok?)
  {
    if rs == [] then Ok([])
    else if rs[0].Err? then
      Err(rs[0].error)
    else
      var rest := Collect(rs[1..]);
      if rest.Err? then
        ghost var i :| 0 <= i < |rs| - 1 && rs[1..][i] == Err(rest.error) &&
          forall j :: 0 <= j < i ==> rs[1..][j].Ok?;
        assert rs[i + 1] == Err(rest.error);
        assert forall j :: 1 <= j < i + 1 ==> rs[j] == rs[1..][j - 1];
        Err(rest.error)
      else
        Ok([rs[0].value] + rest.value)
  }
}
