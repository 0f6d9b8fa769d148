/** The optional value used for the food cell (null before the first reset)
    and for the parsed best score (NaN when the stored text is not a number). */
module Options {

  datatype Option<+T> = None | Some(value: T)
}
