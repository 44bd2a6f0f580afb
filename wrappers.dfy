/** The JavaScript `null`/`undefined` used throughout the site: a value that may be absent. */
module Wrappers {

  datatype Option<+T> = None | Some(value: T)
}
