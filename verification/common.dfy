/** Small shared vocabulary: an optional value standing in for the source's
    null shared pointers and empty QVariants, and one fact about finite sets. */
module Common {

  /** `None` plays the part of a null pointer or an invalid QVariant. */
  datatype Option<+T> = None | Some(value: T)

  /** A subset is never larger than its superset. */
  lemma {:induction false} SubsetCardinality<T>(a: set<T>, b: set<T>)
    requires a <= b
    ensures |a| <= |b|
  {
    if a != {} {
      var x :| x in a;
      SubsetCardinality(a - {x}, b - {x});
    }
  }
}
