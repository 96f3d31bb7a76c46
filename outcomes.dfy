/** Failure-compatible values, and one sequence fact, shared by every part of the model. */
module Outcomes {

  datatype Option<+T> = None | Some(value: T)

  /** What an `anyhow::Error` or a panic in the program carries. */
  datatype Error =
    | Io                        // an I/O or process error propagated with `?`
    | InvalidNumber             // `str::parse::<u64>` failed
    | Decode                    // `plist::from_bytes` failed, propagated with `?`
    | Bail(message: string)     // `bail!(message)`
    | Panic(message: string)    // `unwrap()` on a missing value aborts the program

  datatype Result<+T> = Ok(value: T) | Err(error: Error)

  const UnwrapNone: string := "called `Option::unwrap()` on a `None` value"

  /** A concatenation ends as its nonempty second part does. */
  lemma LastOfAppend<T>(a: seq<T>, b: seq<T>)
    requires b != []
    ensures (a + b)[|a + b| - 1] == b[|b| - 1]
  {
  }
}
