/** The optional value returned by a lookup: either exactly one value or none. */
module Maybe {

  datatype Maybe<+T> = None | Some(value: T) {

    /** True iff this holds a value. */
    predicate HasValue() {
      Some?
    }

    /** The held value; asking an empty Maybe for it is a contract violation. */
    function Value(): T
      requires HasValue()
    {
      value
    }
  }
}
