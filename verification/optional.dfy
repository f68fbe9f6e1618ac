/** An optional value: `None` stands for JavaScript's `undefined` or `null`
    where the program tests for a missing thing. */
module Optional {

  datatype Option<+T> = None | Some(value: T)

}
