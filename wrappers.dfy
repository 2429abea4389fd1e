/** The optional value that the trie's lookups return in place of Rust's `Option`. */
module Wrappers {

  datatype Option<T> = None | Some(value: T)
}
