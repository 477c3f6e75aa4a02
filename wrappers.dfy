/** Option and Result values standing for Java's null and thrown exceptions. */
module Wrappers {

  datatype Option<T> = None | Some(value: T)

  /** The kinds of exception the modelled Java code can throw. */
  datatype Exception =
    | ArithmeticException        // Unit range checks
    | NumberFormatException      // Integer.parseInt / Long.parseLong
    | IndexOutOfBoundsException  // array and substring indices
    | NullPointerException       // unboxing a missing map entry
    | MachineFault               // the simulator's own memory fault

  datatype Result<T> = Ok(value: T) | Err(error: Exception)
}
