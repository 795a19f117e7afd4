/** The Java code's nullable references (a cell's ship or structure, canSwap's result) as values. */
module Optional {

  datatype Option<+T> = None | Some(value: T)

}
