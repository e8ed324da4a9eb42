/** Optional values, used for readers that may reject their input. */
module Wrappers {

  datatype Option<+T> = None | Some(value: T)

  /** Puts `c` in front of the text carried by `o`; a rejection stays a rejection. */
  function Prepend(c: char, o: Option<string>): Option<string>
  {
    match o
    case Some(t) => Some([c] + t)
    case None => None
  }
}
