/** The optional value the scraper uses for Python's `None`. */
module Wrappers {

  datatype Option<+T> = None | Some(value: T)
}
