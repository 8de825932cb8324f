/** The optional value that stands for Python's `None` throughout the model. */
module Wrappers {

  datatype Option<+T> = None | Some(value: T)

  /** Python's truth test on an optional integer: `None` and `0` are both falsy. */
  function Truthy(o: Option<int>): (r: Option<int>)
    ensures r.Some? <==> (o.Some? && o.value != 0)
    ensures r.Some? ==> r == o
  {
    if o == Some(0) then None else o
  }
}
