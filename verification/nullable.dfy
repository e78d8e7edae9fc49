/** Kotlin's nullable references, as an explicit optional value. */
module Nullable {

  /** A value that may be absent (`T?` in the plugin's Kotlin code). */
  datatype Option<+T> = None | Some(value: T) {

    /** The wrapped value, or `default` when absent: the elvis operator `x ?: default`. */
    function OrElse(default: T): T {
      match this
      case Some(v) => v
      case None => default
    }
  }
}
