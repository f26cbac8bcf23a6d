/** Small types and functions shared by all parts. */
module Basics {
  datatype Option<T> = None | Some(value: T)

  datatype Result<T, E> = Ok(value: T) | Err(error: E)

  /** One for true. */
  function Unit(b: bool): (r: nat) { if b then 1 else 0 }

  /** The slot at position x of a ring, which lies less than one turn outside 0..capacity. */
  function Wrap(x: int, capacity: int): (r: int) {
    if x < 0 then x + capacity else if x >= capacity then x - capacity else x
  }

  lemma Regroup<T>(a: seq<T>, b: seq<T>, c: seq<T>)
    ensures (a + b) + c == a + (b + c)
  {
  }
}
