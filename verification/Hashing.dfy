/** Hashes. A hash is 32 octets, here read as one number. A hash function is a parameter of
    everything that uses one, and nothing is known of it but that it is a function. */
module Hashing {

  datatype Hash = Hash(value: int)

  const ZERO_HASH := Hash(0)

  /** Hashing a fixed tag followed by two hashes is a function of the two hashes, because all
      hashes have one length. */
  type Combine = (Hash, Hash) -> Hash

  function Paired(H: Combine): ((Hash, Hash)) -> Hash {
    (p: (Hash, Hash)) => H(p.0, p.1)
  }

  /** Two different inputs among the given ones have one hash. Every hash function collides
      somewhere, so where a result says "or there is a collision" it names the inputs among which
      there is one: those hashed on the way to the equal results. */
  ghost predicate CollidesAmong<X(!new), Y(!new)>(H: X -> Y, inputs: set<X>) {
    exists x, y :: x in inputs && y in inputs && x != y && H(x) == H(y)
  }

  lemma CollidesAmongMore<X(!new), Y(!new)>(H: X -> Y, some: set<X>, all: set<X>)
    requires CollidesAmong(H, some) && some <= all
    ensures CollidesAmong(H, all)
  {
  }

  lemma SameHash(H: Combine, a: Hash, b: Hash, c: Hash, d: Hash, inputs: set<(Hash, Hash)>)
    requires H(a, b) == H(c, d) && (a, b) in inputs && (c, d) in inputs
    ensures (a == c && b == d) || CollidesAmong(Paired(H), inputs)
  {
    if !(a == c && b == d) {
      assert Paired(H)((a, b)) == Paired(H)((c, d)) && (a, b) != (c, d);
    }
  }
}
