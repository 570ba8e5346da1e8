/** The library behaviour the code relies on: the java.util.ArrayList operations
    the search code uses on the lists it hands down its recursion by reference,
    and the defaulting lookup of Vert.x JsonObject. */
module JavaList {

  /** An entry of a JSON configuration or request: present with a value, or absent. */
  datatype Option<T> = None | Some(value: T)

  /** JsonObject.getInteger(key, default): the entry's value, or the default when absent. */
  function GetInteger(entry: Option<int>, default: int): (v: int)
    ensures entry.Some? ==> v == entry.value
    ensures entry.None? ==> v == default
  {
    match entry
    case Some(x) => x
    case None => default
  }

  class ArrayList<T> {
    var elems: seq<T>

    constructor ()
      ensures elems == []
    {
      elems := [];
    }

    function Size(): (k: nat)
      reads this
      ensures k == |elems|
    {
      |elems|
    }

    /** list.add(x): append at the end. */
    method Add(x: T)
      modifies this
      ensures elems == old(elems) + [x]
    {
      elems := elems + [x];
    }

    /** list.remove(index): drop the element at index, shifting the rest left. */
    method Remove(index: int)
      requires 0 <= index < |elems|
      modifies this
      ensures elems == old(elems[..index] + elems[index + 1..])
    {
      elems := elems[..index] + elems[index + 1..];
    }
  }
}
