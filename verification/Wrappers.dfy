/** The value-or-nothing type used for NULL pointers and absent attributes, and a fact about
    sequences. */
module Wrappers {
  datatype Option<+T> = None | Some(value: T)

  lemma EmptyIff<T>(s: seq<T>)
    ensures s == [] <==> forall x :: x !in s
  {
    if s != [] { assert s[0] in s; }
  }
}
