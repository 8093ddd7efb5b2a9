/** The command-line boundary: the range check on `--threshold`. */
module Cli {
  import opened Outcome

  /** The threshold is accepted exactly when it lies in the closed range [0.0, 1.0]. */
  function ValidateThreshold(threshold: real): (r: Result<real>)
    ensures r.Ok? <==> 0.0 <= threshold <= 1.0
    ensures r.Ok? ==> r.value == threshold
    ensures r.Err? ==> r.error == ThresholdOutOfRange
  {
    if 0.0 <= threshold <= 1.0 then Ok(threshold) else Err(ThresholdOutOfRange)
  }
}
