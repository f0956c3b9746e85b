/** Option and Result, used for the values the crawler may lack and for the
    exceptions that abort a crawl. */
module Wrappers {

  datatype Option<+T> = None | Some(value: T)

  datatype Result<+T, +E> = Ok(value: T) | Err(error: E)
}
