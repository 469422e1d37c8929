/**
  The two presence tests the query layer applies to its optional filters.

  A filter guarded by `if value:` is applied only when the value is truthy in
  Python's sense, so `None`, `0`, `0.0` and `""` all mean "no filter".  A filter
  guarded by `if value is not None:` is applied for every supplied value,
  zero included.
 */
module Presence {
  import opened Wrappers

  /** Python truthiness of an optional `int`: false for `None` and for `0`. */
  function TruthyInt(o: Option<int>): (b: bool)
    ensures b <==> IsNotNone(o) && o != Some(0)
  {
    o.Some? && o.value != 0
  }

  /** Python truthiness of an optional `float`: false for `None` and for `0.0`. */
  function TruthyReal(o: Option<real>): (b: bool)
    ensures b <==> IsNotNone(o) && o != Some(0.0)
  {
    o.Some? && o.value != 0.0
  }

  /** Python truthiness of an optional `str`: false for `None` and for `""`. */
  function TruthyString(o: Option<string>): (b: bool)
    ensures b <==> IsNotNone(o) && o != Some("")
  {
    o.Some? && |o.value| > 0
  }

  /** The `is not None` test: false for `None` alone, whatever the value inside. */
  function IsNotNone<T(==)>(o: Option<T>): (b: bool)
    ensures !b <==> o == None
  {
    o.Some?
  }
}
