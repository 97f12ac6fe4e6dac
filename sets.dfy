/** The witness every choice of an element from a set needs. */
module Sets {

  /** A set is empty or has a member. */
  lemma EmptyOrMember<T>(s: set<T>)
    ensures s == {} || exists x :: x in s
  {
    if forall x :: x !in s {
      assert s == {};
    }
  }

  /**
   * The same for sets of integers, stated without a type parameter: the
   * verifier does not carry the generic statement over to `int`.
   */
  lemma EmptyOrMemberInt(s: set<int>)
    ensures s == {} || exists x :: x in s
  {
    if forall x :: x !in s {
      assert s == {};
    }
  }
}
