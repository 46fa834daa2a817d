/** The optional value the scraper returns as `None` when a lookup or a download fails. */
module Wrappers {
  datatype Option<+T> = None | Some(value: T)
}
