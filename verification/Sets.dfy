/** Walking a set or the keys of a map in an order that nobody controls, as Go's `range` does. */
module Sets {
  method Pick<T>(s: set<T>) returns (x: T)
    requires s != {}
    ensures x in s
  {
    x :| x in s;
  }
}
