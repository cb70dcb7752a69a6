/** The bytes of a heap, by address, and what a call leaves of them. */
module Memories {
  type Memory = seq<nat>

  /** `count` bytes at `from` in `m` are now at `to` in `m'`. */
  ghost predicate Copied(m: Memory, m': Memory, from: nat, to: nat, count: nat) {
    from + count <= |m| && to + count <= |m'| && forall w :: to <= w < to + count ==> m'[w] == m[from + (w - to)]
  }

  /** No bytes but those from `from` to `to` have changed. */
  ghost predicate SameOutside(m: Memory, m': Memory, from: int, to: int) {
    |m| == |m'| && forall w :: 0 <= w < |m| && !(from <= w < to) ==> m'[w] == m[w]
  }
}
