/** The one wrapper the model needs: a value or its absence. It stands for
    the program's `null` results and for the exceptions a parser throws. */
module Options {
  datatype Option<T> = None | Some(value: T)
}
