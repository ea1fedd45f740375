/** Small building blocks shared by the model: an optional value, the
    exceptions the service can raise, and Python's `list(set(...))`. */
module Common {

  datatype Option<+T> = None | Some(value: T)

  /** The exceptions the modelled code can raise. */
  datatype Failure =
    | UnboundLocal   // a local name read before it was ever assigned
    | StorageError   // any failure of the database connection or query
    | KeyError       // a dictionary lookup of a missing key

  /** A value, or the exception that was raised instead. */
  datatype Outcome<+T> = Ok(value: T) | Raised(failure: Failure)

  predicate Distinct<T(==)>(s: seq<T>) {
    forall i, j :: 0 <= i < j < |s| ==> s[i] != s[j]
  }

  /** Python's `set(some_list)`. */
  function SetOf<T(==)>(s: seq<T>): set<T> {
    set x | x in s
  }

  /** Python's `list(some_set)`: every element once, in an order the
      language does not fix (modelled by an arbitrary choice per step). */
  method ListOfSet<T(==)>(s: set<T>) returns (r: seq<T>)
    ensures Distinct(r)
    ensures forall x :: x in r <==> x in s
  {
    r := [];
    var rest := s;
    while rest != {}
      invariant Distinct(r)
      invariant forall x :: x in s <==> x in r || x in rest
      invariant forall x :: x in r ==> x !in rest
      decreases rest
    {
      var x :| x in rest;
      r := r + [x];
      rest := rest - {x};
    }
  }
}
