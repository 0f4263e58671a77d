/** What several modules share. */
module Wrappers {

  datatype Option<T> = None | Some(value: T)

  function Abs(x: int): nat { if x < 0 then 0 - x else x }
}
