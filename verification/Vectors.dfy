/** Embeddings over the reals. */
module Vectors {
  type Vector = seq<real>

  /** What every index stands for. */
  type VectorMap = map<string, Vector>

  /** Two maps say the same about one id. */
  predicate SameAt(a: VectorMap, b: VectorMap, id: string) {
    (id in a <==> id in b) && (id in a ==> a[id] == b[id])
  }
}
