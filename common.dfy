/** Shared vocabulary: optional cells, the KeyError pandas raises for an
    absent column, results that carry one, and exact ratios. */
module Common {

  datatype Option<+T> = None | Some(value: T)

  /** A pandas KeyError: the named column (or sort key) is not in the frame. */
  datatype Error = KeyError(key: string)

  datatype Result<+T> = Ok(value: T) | Err(error: Error)

  /** A fraction kept as numerator and denominator. A zero denominator is
      the NaN that a mean over an empty table yields. */
  datatype Ratio = Ratio(num: nat, den: nat)
}
