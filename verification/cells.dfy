/** Values as pandas hands them to the recommender: a table cell may be
    missing (NaN), and a Python call may raise instead of returning. */
module Cells {

  /** One cell of a DataFrame column: NaN or a value. */
  datatype Cell<+T> = Missing | Present(value: T) {

    /** `Series.fillna(default)` on a single cell. */
    function FillNa(default: T): T {
      match this
      case Present(v) => v
      case Missing => default
    }
  }

  /** The outcome of a Python call that either returns or raises ValueError. */
  datatype Call<+T> = Returns(value: T) | RaisesValueError
}
