/** The exceptions the modelled code can raise, and a result type that
    carries either a value or the exception. */
module Results {

  datatype Error =
    | SampleOutOfRange   // ValueError from random.sample: count negative or above the population
    | MissingScoreField  // IndexError from line[1] on a checkpoint line without a tab
    | BadScore           // ValueError from float() on the score field

  datatype Result<T> = Ok(value: T) | Err(error: Error)
}
