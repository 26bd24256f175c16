/** Optional values: a netlink attribute that a message may or may not carry,
    or a C string that may be null. */
module Wrappers {

  datatype Option<+T> = None | Some(value: T)
}
