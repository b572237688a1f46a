/** What every answer of the engine has in common. */
module Answers {

  /** Every not-found answer of the engine starts with these words. */
  const CouldNotFind := "I couldn't find "

  /** An answer that starts differently from the not-found words is never a not-found answer. */
  lemma FoundIsNotMissing(found: string, rest: string, quoted: string)
    requires found != [] && found[0] != CouldNotFind[0]
    ensures found + quoted != CouldNotFind + rest
  {
    assert (found + quoted)[0] == found[0];
    assert (CouldNotFind + rest)[0] == CouldNotFind[0];
  }
}
