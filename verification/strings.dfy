// A fact about concatenation that the text-handling modules share.
module Strings {

  lemma Associates(a: string, b: string, c: string)
    ensures a + b + c == a + (b + c)
  {
  }
}
