/** The optional value used throughout the model: a missing cell of a data
    frame, a NaN entry of a correlation matrix, or a key of the shared
    workspace that has not been written yet. */
module Options {

  datatype Option<+T> = None | Some(value: T)

}
