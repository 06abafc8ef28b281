/** The optional value used for nullable references (a post's country, its image,
    the requester of an anonymous request). */
module Wrappers {

  datatype Option<+T> = None | Some(value: T)
}
