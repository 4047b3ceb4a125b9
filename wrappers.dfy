/** Results and optional values standing in for Java's exceptions and nulls. */
module Wrappers {

  datatype Option<T> = None | Some(value: T)

  /** The exceptions the modelled code throws or lets through. */
  datatype Exception =
    | IllegalArgument   // java.lang.IllegalArgumentException
    | IllegalState      // java.lang.IllegalStateException
    | Topology          // org.locationtech.jts.geom.TopologyException
    | NullPointer       // java.lang.NullPointerException
    | ClassCast         // java.lang.ClassCastException
    | NoSuchElement     // java.util.NoSuchElementException

  datatype Result<T> = Success(value: T) | Failure(error: Exception)
}
