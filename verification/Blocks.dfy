/** The value of a node of the B-tree as it lies in its block, and of the whole file. */
module Blocks {
  type Key = int
  type Record = int

  datatype Entry = Entry(smaller: nat, key: Key, record: Record)

  /** `self` and `parent` are block numbers; 0 is the null number. */
  datatype Block = Block(self: nat, parent: nat, larger: nat, count: nat, entries: seq<Entry>)

  type Store = seq<Block>

  function Zeros(n: nat): (r: seq<Entry>)
    ensures |r| == n && forall i :: 0 <= i < n ==> r[i] == Entry(0, 0, 0)
  {
    seq(n, _ => Entry(0, 0, 0))
  }

  function Childless(es: seq<Entry>): (r: seq<Entry>)
    ensures |r| == |es| && forall i :: 0 <= i < |es| ==> r[i] == es[i].(smaller := 0)
  {
    seq(|es|, i requires 0 <= i < |es| => es[i].(smaller := 0))
  }
}
