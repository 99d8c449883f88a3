/** The java.util.List that the MongoDB utilities fill in for their callers. */
module JavaUtil {

  /** A growable list whose only mutation in the modelled code is `add` at the end. */
  class ArrayList<T(==)> {
    var elems: seq<T>

    constructor ()
      ensures elems == []
    {
      elems := [];
    }

    /** List.add: appends x and changes nothing else. */
    method Add(x: T)
      modifies this
      ensures elems == old(elems) + [x]
    {
      elems := elems + [x];
    }

    /** List.contains, under the element type's value equality. */
    function Contains(x: T): bool
      reads this
    {
      x in elems
    }
  }

  /** No element occurs twice. */
  predicate Distinct<T(==)>(s: seq<T>)
  {
    forall i, j :: 0 <= i < j < |s| ==> s[i] != s[j]
  }

  /** The set of the elements of a sequence. */
  function Elements<T>(s: seq<T>): set<T>
  {
    set x | x in s
  }
}
