/** The B-tree object: a file and the root of the tree in it. */
module Btrees {
  import opened Wrappers
  import opened Blocks
  import opened BtreeOrder
  import opened BtreeCheck
  import opened BtreeSplit
  import opened BtreeNode

  lemma EmptyTree(s: Store, n: nat)
    requires n >= 3 && |s| == 2 && s[1] == Block(1, 0, 0, 0, Zeros(n))
    ensures var m := Meta(None, None, 0);
            Inv(s, [m, m], 1, n) && Represents(s, map[])
  {
    var m := Meta(None, None, 0);
    assert NodeOK(s, [m, m], 1, n, 1);
  }

  class Btree {
    const file: MmapFile
    var root: Node
    ghost var metas: Metas
    ghost var top: nat
    ghost var contents: map<Key, Record>

    ghost predicate Valid()
      reads this, file, file.blocks
    {
      && file.Holds(metas, top)
      && root == file.blocks[top]
      && Represents(file.Store(), contents)
    }

    /** The number of levels below the root. */
    ghost function Height(): nat
      reads this
    {
      if top < |metas| then metas[top].height else 0
    }

    /** A file that already has a tree is reopened: whatever node block 1 now is, the root is found from there. */
    constructor (file: MmapFile, ghost metas: Metas, ghost top: nat, ghost contents: map<Key, Record>)
      requires file.Usable() && file.Room(1) && file.slots >= 3
      requires |file.blocks| > 1 ==> file.Holds(metas, top) && Represents(file.Store(), contents)
      modifies file
      ensures Valid() && this.file == file && old(file.blocks) <= file.blocks
      ensures |old(file.blocks)| > 1 ==>
                && file.blocks == old(file.blocks) && file.Store() == old(file.Store())
                && root == file.blocks[top] && this.top == top && this.contents == contents && this.metas == metas
      ensures |old(file.blocks)| == 1 ==>
        this.contents == map[] && Height() == 0 && fresh(file.blocks[1]) && |file.blocks| == 2
    {
      hide Inv, Represents;
      var node: Node;
      if file.BlockCount() > 1 {
        var first := file.GetReference(1);
        assert first.Some? && first.value.Value() == file.Store()[1];
        ParentIsHigher(file.Store(), metas, top, file.slots, 1);
        node := first.value.FindRoot(file, metas, top);
        this.metas, this.top, this.contents := metas, top, contents;
      } else {
        var index;
        index, node := file.NewNode(0);
        EmptyTree(file.Store(), file.slots);
        var m := Meta(None, None, 0);
        this.metas, this.top, this.contents := [m, m], 1, map[];
      }
      this.file, root := file, node;
    }

    method Find(key: Key) returns (record: Option<Record>)
      requires Valid()
      ensures record == if key in contents then Some(contents[key]) else None
    {
      hide Inv, Represents;
      InRoot();
      FindAgrees(file.Store(), metas, top, file.slots, contents, key);
      var location;
      record, location := root.FindRecordAndNode(file, key, metas, top);
    }

    /** The file must be able to hold the blocks that the insertion takes; a present key is an exception. */
    method Insert(key: Key, record: Record) returns (r: Outcome)
      requires Valid() && file.Room(NeededFor(file.Store(), metas, top, file.slots, key, contents))
      modifies this, file, set i | 0 <= i < |file.blocks| :: file.blocks[i]
      ensures Valid()
      ensures old(file.blocks) <= file.blocks && forall i :: |old(file.blocks)| <= i < |file.blocks| ==>
        fresh(file.blocks[i])
      ensures |file.blocks| == old(|file.blocks| + NeededFor(file.Store(), metas, top, file.slots, key, contents))
      ensures key in old(contents) ==>
        r == AlreadyExists && contents == old(contents) && file.Store() == old(file.Store()) && root == old(root)
      ensures key !in old(contents) ==> r == Done && contents == old(contents)[key := record]
    {
      hide Inv, Represents, MmapFile.Valid, NeededFor;
      InRoot();
      ghost var g', top';
      r, g', top' := root.Insert(file, key, record, metas, top, contents);
      Settle(g', top', if key in contents then contents else contents[key := record]);
    }

    /** The root is looked up again. */
    method Settle(ghost metas: Metas, ghost top: nat, ghost contents: map<Key, Record>)
      requires file.Holds(metas, top) && Represents(file.Store(), contents) && root.In(file) && root.self > 0
      modifies this
      ensures Valid() && this.metas == metas && this.top == top && this.contents == contents
      ensures root == file.blocks[top]
    {
      hide Inv, Represents;
      ParentIsHigher(file.Store(), metas, top, file.slots, root.self);
      root := root.FindRoot(file, metas, top);
      this.metas, this.top, this.contents := metas, top, contents;
    }

    method Depth() returns (depth: nat)
      requires Valid()
      ensures depth == Height() + 1
    {
      InRoot();
      assert NodeOK(file.Store(), metas, top, file.slots, top);
      depth := root.Depth(file, metas, top);
    }

    /** In a tree kept by these operations, the check never fails. */
    method Validate() returns (r: Outcome)
      requires Valid()
      ensures r == Done
    {
      InRoot();
      InvChecks(file.Store(), metas, top, file.slots, top);
      r := root.Validate(file, metas);
    }

    lemma InRoot()
      requires Valid()
      ensures 1 <= top < |metas| == |file.blocks| && root.self == top && root.In(file)
    {
      assert root.Value() == file.Store()[top];
      ParentIsHigher(file.Store(), metas, top, file.slots, top);
    }
  }
}
