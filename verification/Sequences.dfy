/** Facts about sequences that several modules use. */
module Sequences {
  lemma SamePrefix<T>(x: seq<T>, y: seq<T>, z: seq<T>)
    ensures x + y == x + z <==> y == z
  {
    assert (x + y)[|x|..] == y && (x + z)[|x|..] == z;
  }

  lemma Assoc<T>(a: seq<T>, b: seq<T>, c: seq<T>)
    ensures a + (b + c) == a + b + c
  {
  }
}
