/** The JavaScript `null`-or-value results of the main process, as an Option. */
module Wrappers {

  datatype Option<+T> = None | Some(value: T)
}
