/** Indices that go around the end of an array. */
module Rings {

  /** `i % m`, with the two cases a ring index meets spelled out. */
  function Wrap(i: nat, m: nat): (w: nat)
    requires m > 0
    ensures w < m
    ensures i < m ==> w == i
    ensures m <= i < 2 * m ==> w == i - m
  {
    i % m
  }
}
