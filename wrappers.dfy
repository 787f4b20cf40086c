/** Optional values, for the collaborators that may fail (a project that does not load)
    and for `std::string::find`, whose `npos` is `None` here. */
module Wrappers {

  datatype Option<+T> = None | Some(value: T)
}
