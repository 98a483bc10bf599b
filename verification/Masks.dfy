/** The two action bits of loopy.h. */
module Masks {
  datatype Mask = Mask(read: bool, write: bool) {

    predicate Empty()
    {
      !read && !write
    }

    function Or(other: Mask): (r: Mask)
    {
      Mask(read || other.read, write || other.write)
    }

    function And(other: Mask): (r: Mask)
    {
      Mask(read && other.read, write && other.write)
    }

    function Minus(other: Mask): (r: Mask)
    {
      Mask(read && !other.read, write && !other.write)
    }

    predicate Within(other: Mask)
    {
      (read ==> other.read) && (write ==> other.write)
    }
  }

  /** The mask names reading, or writing. */
  predicate Names(mask: Mask, write: bool)
  {
    if write then mask.write else mask.read
  }

  const NONE := Mask(false, false)
  const READ := Mask(true, false)
  const WRITE := Mask(false, true)
}
