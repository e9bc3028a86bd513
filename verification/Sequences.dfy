/** Writing into a sequence one element at a time. */
module Sequences {

  lemma OneMore<T>(was: seq<T>, at: nat, src: seq<T>, i: nat)
    requires at + |src| <= |was| && i < |src|
    ensures (was[..at] + src[..i] + was[at + i..])[at + i := src[i]] == was[..at] + src[..i + 1] + was[at + i + 1..]
  {}
}
