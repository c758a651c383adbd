/** Two facts about sequences and sets that do not depend on what they hold. */
module Collections {

  /** The element at position i, or what stands for its absence past the end. */
  function At<T>(s: seq<T>, i: nat, otherwise: T): T {
    if i < |s| then s[i] else otherwise
  }

  lemma {:induction false} SubsetSize<T>(part: set<T>, whole: set<T>)
    requires part <= whole
    ensures |part| <= |whole|
  {
    assert whole == part + (whole - part);
  }
}
