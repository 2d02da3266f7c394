/** Concatenation of per-item blocks, each block built knowing the output
    position it starts at: the shape of a loop over items that pushes each
    item's results onto one array while a counter runs on. */
module Chains {

  /** The blocks of `ps` in order, the first starting at position `start`
      and each next one where the previous ended. */
  function Chain<P, M>(ps: seq<P>, blockOf: (P, nat) -> seq<M>, start: nat): seq<M>
    decreases |ps|
  {
    if |ps| == 0 then []
    else
      var b := blockOf(ps[0], start);
      b + Chain(ps[1..], blockOf, start + |b|)
  }

  /** The number of elements the first `j` blocks contribute. */
  function ChainOffset<P, M>(ps: seq<P>, blockOf: (P, nat) -> seq<M>, start: nat, j: nat): nat
    requires j <= |ps|
    decreases j
  {
    if j == 0 then 0
    else
      var b := blockOf(ps[0], start);
      |b| + ChainOffset(ps[1..], blockOf, start + |b|, j - 1)
  }

  /** The chain is exactly as long as all its blocks together. */
  lemma {:induction false} ChainLength<P, M>(ps: seq<P>, blockOf: (P, nat) -> seq<M>, start: nat)
    ensures |Chain(ps, blockOf, start)| == ChainOffset(ps, blockOf, start, |ps|)
    decreases |ps|
  {
    if |ps| > 0 {
      ChainLength(ps[1..], blockOf, start + |blockOf(ps[0], start)|);
    }
  }

  lemma ChainIndexFirst<P, M>(ps: seq<P>, blockOf: (P, nat) -> seq<M>, start: nat, i: nat)
    requires |ps| > 0 && i < |blockOf(ps[0], start)|
    ensures i < |Chain(ps, blockOf, start)|
    ensures Chain(ps, blockOf, start)[i] == blockOf(ps[0], start)[i]
  {
  }

  lemma ChainIndexRest<P, M>(ps: seq<P>, blockOf: (P, nat) -> seq<M>, start: nat, k: nat)
    requires |ps| > 0
    requires k < |Chain(ps[1..], blockOf, start + |blockOf(ps[0], start)|)|
    ensures |blockOf(ps[0], start)| + k < |Chain(ps, blockOf, start)|
    ensures Chain(ps, blockOf, start)[|blockOf(ps[0], start)| + k]
            == Chain(ps[1..], blockOf, start + |blockOf(ps[0], start)|)[k]
  {
  }

  /** Element `i` of block `j` sits at the block's offset plus `i`, and the
      block was built for exactly that starting position. */
  lemma {:induction false} ChainPlaces<P, M>(ps: seq<P>, blockOf: (P, nat) -> seq<M>, start: nat, j: nat, i: nat)
    requires j < |ps|
    requires i < |blockOf(ps[j], start + ChainOffset(ps, blockOf, start, j))|
    ensures ChainOffset(ps, blockOf, start, j) + i < |Chain(ps, blockOf, start)|
    ensures Chain(ps, blockOf, start)[ChainOffset(ps, blockOf, start, j) + i]
            == blockOf(ps[j], start + ChainOffset(ps, blockOf, start, j))[i]
    decreases j
  {
    if j == 0 {
      ChainIndexFirst(ps, blockOf, start, i);
    } else {
      var n := |blockOf(ps[0], start)|;
      var tail := ps[1..];
      assert tail[j - 1] == ps[j];
      ChainPlaces(tail, blockOf, start + n, j - 1, i);
      ChainIndexRest(ps, blockOf, start, ChainOffset(tail, blockOf, start + n, j - 1) + i);
    }
  }
}
