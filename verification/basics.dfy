/** Small datatypes shared by every module of the model. */
module Basics {

  /** A value that may be absent (Python's `None`). */
  datatype Option<+T> = None | Some(value: T)

  /** Which of the two copies of the program is meant: the `SONA` class with
      `SONA_Assistant`, or the `SO_VNA` class with `SO_VNA_Assistant`. The two
      copies differ in a few places, and each operation that differs takes this
      as a parameter. */
  datatype Variant = Sona | SoVna
}
