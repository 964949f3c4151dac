/** Optional values, and iteration over a set of keys whose order the program does not fix. */
module Prelude {

  datatype Option<+T> = None | Some(value: T)

  method Pick<T(==)>(s: set<T>) returns (x: T)
    requires s != {}
    ensures x in s
  {
    x :| x in s;
  }
}
