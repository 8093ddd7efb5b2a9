/** Results and the failures the pipeline can end in. */
module Outcome {

  /** The ways a run of the splitter can fail before producing clips. */
  datatype Error =
    | ThresholdOutOfRange   // the command line rejected the threshold
    | EmptyCandidates       // no onset candidate: the maximum of an empty strength array is undefined

  datatype Result<+T> = Ok(value: T) | Err(error: Error)
}
