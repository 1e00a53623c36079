/** Field elements as the clients see them: plain numbers and Poseidon outputs.
    Poseidon is taken to be collision free and never to produce a plain number,
    which is what a free term algebra says: equal hashes have equal inputs, and
    no hash is 0.  */
module Poseidon {
  datatype Field =
    | Num(n: nat)
    | Node(l: Field, r: Field)    // poseidon2([l, r])

  /** The value 0, which the pool client reads as "no sibling". */
  const ZERO := Num(0)

  ghost predicate NonZero(s: seq<Field>) {
    forall k :: 0 <= k < |s| ==> s[k] != ZERO
  }
}
