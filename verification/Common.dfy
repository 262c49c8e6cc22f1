/** Types shared by the models. */
module Common {

  datatype Option<+T> = None | Some(value: T)

  /** A Go interface value: nil, or some object that nothing here looks into. */
  datatype Any = Nil | Object(id: int)
}
