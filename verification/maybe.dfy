/** The optional value used wherever gameling.js returns `false`, leaves a
    property `undefined`, or treats a missing argument as absent. */
module Maybe {

  /** Either nothing, or one value of type `T`. */
  datatype Option<T> = None | Some(value: T) {

    /** The value held, falling back to `fallback` when there is none. */
    function GetOr(fallback: T): T {
      if Some? then value else fallback
    }
  }
}
