/** A growable list object that callers share by reference, as the pipeline
    shares its temporary list of boards and its list of solutions. Only the
    operations the pipeline uses are here. */
module Lists {

  class ArrayList<T> {
    /** The elements, in list order. */
    var elems: seq<T>

    constructor ()
      ensures elems == []
    {
      elems := [];
    }

    method Size() returns (n: nat)
      ensures n == |elems|
    {
      n := |elems|;
    }

    method Get(i: nat) returns (x: T)
      requires i < |elems|
      ensures x == elems[i]
    {
      x := elems[i];
    }

    /** Appends x at the end. */
    method Add(x: T)
      modifies this
      ensures elems == old(elems) + [x]
    {
      elems := elems + [x];
    }

    /** Removes the element at position i; later elements move down by one. */
    method Remove(i: nat) returns (x: T)
      requires i < |elems|
      modifies this
      ensures x == old(elems)[i]
      ensures elems == old(elems)[..i] + old(elems)[i + 1..]
    {
      x := elems[i];
      elems := elems[..i] + elems[i + 1..];
    }
  }
}
