/** Option and Result, for the values the source may lack and the errors it may raise. */
module Wrappers {

  datatype Option<+T> = None | Some(value: T)

  /** The Python exceptions the modelled code can raise on its own inputs. */
  datatype Error =
    | ZeroDivision   // a drawing with zero width or height
    | EmptyChoice    // random.choice on an empty logo list

  datatype Result<+T> = Ok(value: T) | Err(error: Error)
}
