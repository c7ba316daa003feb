/** Predicates of the form "forall u: Unfold :: P(u, ..)" are unfolded only where P is mentioned. */
module Hiding {
  datatype Unfold = Unfold
}
