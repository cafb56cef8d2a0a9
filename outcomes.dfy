// The two ways a calculation can fail. The calculator reports them as thrown
// runtime errors; here they are the error half of a result value.
module Outcomes {

  datatype CalcError =
    | NoRods          // the rod table is empty
    | SingularSystem  // a pivot of the elimination fell below the tolerance

  datatype Result<T> = Ok(value: T) | Err(error: CalcError)
}
