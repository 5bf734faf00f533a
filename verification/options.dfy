/**
 * A value that may be absent: a regex that did not match, an agent with no
 * queue position, a text that does not parse.
 */
module Options {
  datatype Option<T> = None | Some(value: T)
}
