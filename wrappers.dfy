/** The optional value used throughout the model, and one sequence fact the solver needs pointed out. */
module Wrappers {

  datatype Option<+T> = None | Some(value: T)

  /**
   * Regrouping a concatenation. Dafny knows this; the lemma only exists so
   * that a proof can name the one regrouping it needs instead of asking the
   * solver to find it among all the sequence terms in scope.
   */
  lemma ConcatAssociates<T>(a: seq<T>, b: seq<T>, c: seq<T>)
    ensures a + b + c == a + (b + c)
  {
  }
}
