/**
 * The block file and the nodes that live in its blocks.
 *
 * A node is addressed by the number of its block, and 0 is the null number.  A `Node` object is the block seen as
 * a node; `Block` is its value at one moment, and `MmapFile.Store` is the value of the whole file, which is what
 * the specifications speak about.
 */
module BtreeNode {
  import opened Wrappers
  import opened Blocks
  import opened BtreeOrder
  import opened BtreeSplit
  import opened BtreeCheck

  const BLOCK_SIZE: nat := 65536
  const WORD: nat := 0x1_0000_0000

  /** An entry on its way into a node, with the node that takes the place of its child. */
  datatype Subtree = Subtree(entry: Entry, larger: nat)

  /** How an operation ends: normally, or with one of the exceptions. */
  datatype Outcome = Done | FullNode | NoSuchChild | AlreadyExists | PastEnd | Invalid

  class MmapFile {
    const slots: nat
    var size: nat
    var blocks: seq<Node>

    ghost predicate Valid()
      reads this
    {
      && size == |blocks| * BLOCK_SIZE
      && 1 <= |blocks|
      && forall i, j :: 0 <= i < j < |blocks| ==> blocks[i] != blocks[j]
    }

    /** The length of the file still fits one word. */
    ghost predicate Usable()
      reads this
    {
      Valid() && |blocks| < WORD / BLOCK_SIZE
    }

    /** So many blocks can be added before the length outgrows the word. */
    ghost predicate Room(n: nat)
      reads this
    {
      |blocks| + n < WORD / BLOCK_SIZE
    }

    /** The file holds a well-formed tree. */
    ghost predicate Holds(g: Metas, root: nat)
      reads this, blocks
    {
      Usable() && Inv(Store(), g, root, slots)
    }

    function Store(): (s: Store)
      reads this, blocks
      ensures |s| == |blocks| && forall i :: 0 <= i < |s| ==> s[i] == blocks[i].Value()
    {
      seq(|blocks|, i requires 0 <= i < |blocks| reads this, blocks => blocks[i].Value())
    }

    /** A file that did not exist: one block, which is never used. */
    constructor (slots: nat)
      ensures Valid() && |blocks| == 1 && this.slots == slots && fresh(blocks)
      ensures Store() == [Block(0, 0, 0, 0, Zeros(slots))]
    {
      this.slots := slots;
      size := BLOCK_SIZE;
      var zero := new Node(slots);
      blocks := [zero];
    }

    /** Only the low word of the size is looked at. */
    function BlockCount(): nat
      reads this
    {
      size % WORD / BLOCK_SIZE
    }

    /** The block after the last one, as long as the length fits the word; then the number is fresh and not null.
        When it does not, the number is one of a block that exists: the null number, in a file that has just grown so
        far. */
    method AllocateBlock() returns (index: nat, node: Node)
      requires Valid()
      modifies this
      ensures Valid() && index == |old(blocks)| % (WORD / BLOCK_SIZE)
      ensures (index == |old(blocks)| && index != 0) <==> |old(blocks)| < WORD / BLOCK_SIZE
      ensures |old(blocks)| < WORD / BLOCK_SIZE ==>
                && blocks == old(blocks) + [node] && fresh(node) && node.Value() == Block(0, 0, 0, 0, Zeros(slots))
                && size == old(size) + BLOCK_SIZE && (BlockCount() == |blocks| <==> |blocks| < WORD / BLOCK_SIZE)
      ensures |old(blocks)| >= WORD / BLOCK_SIZE ==> blocks == old(blocks) && size == old(size) && node == blocks[index]
    {
      CountIs(|blocks|);
      index := BlockCount();
      if (index + 1) * BLOCK_SIZE > size {
        node := new Node(slots);
        blocks := blocks + [node];
        size := (index + 1) * BLOCK_SIZE;
        CountIs(|blocks|);
      } else {
        node := blocks[index];
      }
    }

    static lemma CountIs(count: nat)
      ensures count * BLOCK_SIZE % WORD / BLOCK_SIZE == count % (WORD / BLOCK_SIZE) <= count
    {
      var n := WORD / BLOCK_SIZE;
      var q, r := count / n, count % n;
      assert count * BLOCK_SIZE == q * WORD + r * BLOCK_SIZE;
    }

    /** A file that grows block by block to the length of the word hands out the null number next. */
    static method OutgrowsTheWord(slots: nat) returns (file: MmapFile, index: nat)
      ensures fresh(file) && file.Valid() && |file.blocks| == 65536 && file.size == 0x1_0000_0000 && index == 0
    {
      file := new MmapFile(slots);
      var node;
      while |file.blocks| < WORD / BLOCK_SIZE
        invariant file.Valid() && |file.blocks| <= WORD / BLOCK_SIZE
        decreases WORD / BLOCK_SIZE - |file.blocks|
      {
        index, node := file.AllocateBlock();
      }
      index, node := file.AllocateBlock();
    }

    /** A node constructed in a new block. */
    method NewNode(parent: nat) returns (index: nat, node: Node)
      requires Usable() && Room(1)
      modifies this
      ensures Usable() && index == |old(blocks)| && blocks == old(blocks) + [node] && fresh(node)
      ensures Store() == old(Store()) + [Block(index, parent, 0, 0, Zeros(slots))]
    {
      index, node := AllocateBlock();
      assert index == |old(blocks)|;
      node.Init(index, parent);
      assert Childless(Zeros(slots)) == Zeros(slots);
    }

    method GetReference(index: nat) returns (node: Option<Node>)
      requires Valid()
      ensures node == if index < BlockCount() then Some(blocks[index]) else None
    {
      if index >= BlockCount() {
        return None;
      }
      return Some(blocks[index]);
    }

    /** The node of a block number, or null for the null number. */
    method Convert(index: nat) returns (node: Node?)
      requires Usable() && index < |blocks|
      ensures node == if index == 0 then null else blocks[index]
    {
      if index == 0 {
        return null;
      }
      var reference := GetReference(index);
      assert reference.Some?;
      return reference.value;
    }

    /** Tells the node of a block, if there is one, who its parent is. */
    method Adopt(index: nat, parent: nat)
      requires Usable() && index < |blocks|
      modifies set i | 0 <= i < |blocks| :: blocks[i]
      ensures Store() == if index == 0 then old(Store())
                         else old(Store())[index := old(Store())[index].(parent := parent)]
    {
      if index != 0 {
        var node := Convert(index);
        node.parent := parent;
      }
    }
  }

  class Node {
    var self: nat
    var parent: nat
    var larger: nat
    var count: nat
    var entries: seq<Entry>

    function Value(): Block
      reads this
    {
      Block(self, parent, larger, count, entries)
    }

    /** A block of a file that has just grown: all zero. */
    constructor (slots: nat)
      ensures Value() == Block(0, 0, 0, 0, Zeros(slots))
    {
      self, parent, larger, count := 0, 0, 0, 0;
      entries := Zeros(slots);
    }

    /** The placement constructor.  It leaves `larger` as the block has it, and the entries lose their children. */
    method Init(self: nat, parent: nat)
      modifies this
      ensures Value() == Block(self, parent, old(larger), 0, Childless(old(entries)))
    {
      this.self, this.parent, count := self, parent, 0;
      entries := Childless(entries);
    }

    // ---------- the entries of one node ----------

    method FindPosition(key: Key) returns (position: nat)
      requires Fits(Value()) && Linear(Value(), key, 0).Down?
      ensures Linear(Value(), key, 0) == Down(position) && position <= count
    {
      var i := 0;
      while i < count
        invariant i <= count && Linear(Value(), key, i) == Linear(Value(), key, 0)
      {
        if key < entries[i].key {
          return i;
        }
        assert key != entries[i].key;
        i := i + 1;
      }
      return count;
    }

    /** Moves the entries from `position` on one to the right. */
    method FreeUp(position: nat)
      requires position <= count < |entries|
      modifies this`entries
      ensures |entries| == |old(entries)|
      ensures entries[..position] == old(entries)[..position]
      ensures entries[position + 1 .. count + 1] == old(entries)[position .. count]
      ensures entries[count + 1 ..] == old(entries)[count + 1 ..]
    {
      var i := count;
      while i > position
        invariant position <= i <= count && |entries| == |old(entries)|
        invariant forall k {:trigger entries[k]} :: 0 <= k < |entries| ==>
          entries[k] == if i < k <= count then old(entries)[k - 1] else old(entries)[k]
      {
        entries := entries[i := entries[i - 1]];
        i := i - 1;
      }
      forall k | 0 <= k < count - position
        ensures entries[position + 1 .. count + 1][k] == old(entries)[position .. count][k]
      {
        assert entries[position + 1 + k] == old(entries)[position + k];
      }
    }

    /** The entry lies where its key belongs, but is not counted yet. */
    method PlaceEntry(e: Entry)
      requires count < |entries| && Linear(Value(), e.key, 0).Down?
      modifies this`entries
      ensures entries == Opened(old(Value()), Linear(old(Value()), e.key, 0).slot, e).entries
    {
      var position := FindPosition(e.key);
      FreeUp(position);
      entries := entries[position := e];
    }

    /** The slot of a child; `larger` is looked at first.  None stands for the exception. */
    method FindNodePtr(child: nat) returns (slot: Option<nat>)
      requires Fits(Value())
      ensures slot.Some? ==> slot.value <= count && Kid(Value(), slot.value) == child
      ensures slot.None? <==> !HasKid(Value(), child)
    {
      if larger == child {
        assert Kid(Value(), count) == child;
        return Some(count);
      }
      var i := 0;
      while i < count
        invariant i <= count && forall j :: 0 <= j < i ==> Kid(Value(), j) != child
      {
        if entries[i].smaller == child {
          assert Kid(Value(), i) == child;
          return Some(i);
        }
        i := i + 1;
      }
      return None;
    }

    /** Writes through what `FindNodePtr` found. */
    method SetNodePtr(slot: nat, child: nat)
      requires Fits(Value()) && slot <= count
      modifies this`larger, this`entries
      ensures Value() == SetKid(old(Value()), slot, child)
    {
      if slot == count {
        larger := child;
      } else {
        entries := entries[slot := entries[slot].(smaller := child)];
      }
    }

    // ---------- one node of a file ----------

    /** The file has this node where it says it is. */
    ghost predicate In(f: MmapFile)
      reads this, f, f.blocks
    {
      && f.Usable()
      && self < |f.blocks| && f.blocks[self] == this
      && Fits(Value())
    }

    method SetCount(f: MmapFile, count: nat)
      requires In(f) && count <= |entries|
      modifies this`count
      ensures In(f) && f.Store() == Shortened(old(f.Store()), self, count)
    {
      this.count := count;
    }

    /** Puts an entry where its key belongs. */
    method PutEntry(f: MmapFile, e: Entry)
      requires In(f) && count < |entries|
      requires Linear(Value(), e.key, 0).Down?
      requires e.smaller < |f.blocks| && e.smaller != self
      modifies set i | 0 <= i < |f.blocks| :: f.blocks[i]
      ensures In(f) && self == old(self)
      ensures var b, s := old(Value()), old(f.Store());
              var s' := s[old(self) := Opened(b, Linear(b, e.key, 0).slot, e)];
              f.Store() == if e.smaller == 0 then s' else s'[e.smaller := s[e.smaller].(parent := old(self))]
    {
      hide Opened, Linear;
      ghost var b, s := Value(), f.Store();
      OpenedKeepsRest(b, Linear(b, e.key, 0).slot, e);
      PlaceEntry(e);
      assert f.Store() == s[self := Value()];
      f.Adopt(e.smaller, self);
      SetCount(f, count + 1);
    }

    method InsertIntoNode(f: MmapFile, subtree: Subtree) returns (r: Outcome, ghost slot: nat)
      requires In(f)
      requires Linear(Value(), subtree.entry.key, 0).Down?
      requires subtree.larger < |f.blocks| && subtree.entry.smaller < |f.blocks| && subtree.entry.smaller != self
      modifies set i | 0 <= i < |f.blocks| :: f.blocks[i]
      ensures In(f) && self == old(self)
      ensures var b, e, s := old(Value()), subtree.entry, old(f.Store());
              if b.count == |b.entries| then r == FullNode && f.Store() == s
              else if subtree.larger != 0 && !HasKid(b, e.smaller) then r == NoSuchChild && f.Store() == s
              else
                && r == Done
                && (subtree.larger != 0 ==> slot <= b.count && Kid(b, slot) == e.smaller)
                && var c := if subtree.larger != 0 then SetKid(b, slot, subtree.larger) else b;
                   var s' := s[old(self) := Opened(c, Linear(b, e.key, 0).slot, e)];
                   f.Store() == if e.smaller == 0 then s' else s'[e.smaller := s[e.smaller].(parent := old(self))]
    {
      hide Opened, Linear, SetKid, HasKid, Kid;
      slot := 0;
      if count == |entries| {
        return FullNode, 0;
      }
      ghost var b, s := Value(), f.Store();
      if subtree.larger != 0 {
        var ref := FindNodePtr(subtree.entry.smaller);
        if ref.None? {
          return NoSuchChild, 0;
        }
        slot := ref.value;
        LinearSetKid(b, slot, subtree.larger, subtree.entry.key);
        SetNodePtr(ref.value, subtree.larger);
        assert f.Store() == s[self := Value()];
      }
      PutEntry(f, subtree.entry);
      r := Done;
    }

    method InsertOnEnd(f: MmapFile, e: Entry) returns (r: Outcome)
      requires In(f) && count < |entries| && e.smaller < |f.blocks| && e.smaller != self
      modifies set i | 0 <= i < |f.blocks| :: f.blocks[i]
      ensures r == Done && self == old(self) && In(f)
      ensures f.Store() == Appended(old(f.Store()), old(self), e)
    {
      if count > |entries| {
        return PastEnd;
      }
      entries := entries[count := e];
      f.Adopt(e.smaller, self);
      count := count + 1;
      return Done;
    }

    /** A node of a well-formed tree. */
    ghost predicate InTree(f: MmapFile, g: Metas, root: nat)
      reads this, f, f.blocks
    {
      f.Holds(g, root) && In(f) && self > 0
    }

    // ---------- walking the tree ----------

    /** From any node, up to the root. */
    method FindRoot(f: MmapFile, ghost g: Metas, ghost root: nat) returns (r: Node)
      requires InTree(f, g, root)
      ensures r == f.blocks[root]
      decreases g[root].height - g[self].height
    {
      assert NodeOK(f.Store(), g, root, f.slots, self);
      if parent == 0 {
        return this;
      }
      var p := f.Convert(parent);
      assert NodeOK(f.Store(), g, root, f.slots, parent);
      r := p.FindRoot(f, g, root);
    }

    /** The halving search: it ends, and decides as the linear search would. */
    method FindRecordAndNode(f: MmapFile, key: Key, ghost g: Metas, ghost root: nat)
      returns (record: Option<Record>, location: Node)
      requires InTree(f, g, root)
      ensures location.In(f) && Found(record, location.self) == Find(f.Store(), g, root, f.slots, self, key)
      decreases g[self].height
    {
      location := this;
      ghost var s := f.Store();
      assert NodeOK(s, g, root, f.slots, self);
      LinearMeans(Value(), key, 0);
      ghost var turn := Linear(Value(), key, 0);
      ghost var target := if turn.Hit? then turn.at else turn.slot;
      var current: int := count / 2;
      var step := current;
      while 0 <= current < count
        invariant 0 <= current <= count && 0 <= step
        invariant step > 1 ==> step <= current <= count - step
        invariant current == count ==> turn == Down(count)
        decreases if step > 1 then step else 1, if current > target then current - target else target - current
      {
        if key == entries[current].key {
          return Some(entries[current].record), location;
        }
        step := step / 2;
        if step == 0 {
          step := 1;
        }
        if key < entries[current].key {
          if current == 0 || key > entries[current - 1].key {
            assert turn == Down(current);
            record, location := Descend(f, key, current, g, root);
            return;
          }
          assert target < current;
          current := current - step;
        } else {
          assert current < target;
          current := current + step;
        }
      }
      record, location := Descend(f, key, count, g, root);
    }

    /** The search goes on in a child, if there is one. */
    method Descend(f: MmapFile, key: Key, slot: nat, ghost g: Metas, ghost root: nat)
      returns (record: Option<Record>, location: Node)
      requires InTree(f, g, root)
      requires Linear(Value(), key, 0) == Down(slot)
      ensures location.In(f) && Found(record, location.self) == Find(f.Store(), g, root, f.slots, self, key)
      decreases g[self].height, 0
    {
      ghost var s := f.Store();
      assert NodeOK(s, g, root, f.slots, self);
      var child := if slot < count then entries[slot].smaller else larger;
      assert child == Kid(s[self], slot);
      assert g[self].height > 0 ==> KidOK(s, g, self, slot);
      if child == 0 {
        return None, this;
      }
      var node := f.Convert(child);
      assert NodeOK(s, g, root, f.slots, child);
      record, location := node.FindRecordAndNode(f, key, g, root);
    }

    // ---------- making room ----------

    method LargerNode(f: MmapFile, child: nat)
      requires In(f) && child < |f.blocks| && child != self
      modifies set i | 0 <= i < |f.blocks| :: f.blocks[i]
      ensures In(f) && self == old(self)
      ensures f.Store() == WithLarger(old(f.Store()), old(self), child)
    {
      larger := child;
      f.Adopt(child, self);
    }

    /** The loop that moves the entries above the middle to the new node. */
    method MoveUpper(f: MmapFile, node: Node, ghost s: Store)
      requires In(f) && node.In(f) && self < |s| == node.self
      requires count == |entries| >= 3 && forall j :: 0 <= j < count ==>
        entries[j].smaller < |s| && entries[j].smaller != self
      requires s[self] == Value() && MovingTo(s, f.Store(), self, Middle(count) + 1)
      modifies set i | 0 <= i < |f.blocks| :: f.blocks[i]
      ensures Value() == old(Value()) && node.In(f) && node.self == |s|
      ensures MovingTo(s, f.Store(), self, count)
    {
      hide MovingTo, MovedUpTo, MmapFile.Valid, Appended;
      ghost var b := Value();
      var i := Middle(count) + 1;
      MovingRoom(s, f.Store(), self, i);
      while i < count
        invariant Middle(count) < i <= count && Value() == b && node.In(f) && node.self == |s|
        invariant MovingTo(s, f.Store(), self, i)
      {
        ghost var before := f.Store();
        MovingRoom(s, before, self, i);
        AppendedKeeps(before, |s|, entries[i], self);
        var done := node.InsertOnEnd(f, entries[i]);
        assert Value() == f.Store()[self];
        MovesOn(s, before, f.Store(), self, i);
        i := i + 1;
      }
    }

    /** The new node, with everything above the middle but the last child. */
    method NewRight(f: MmapFile, ghost g: Metas, ghost root: nat) returns (index: nat, node: Node)
      requires InTree(f, g, root) && count == |entries| && f.Room(1)
      modifies f, set i | 0 <= i < |f.blocks| :: f.blocks[i]
      ensures Value() == old(Value()) && In(f) && node.In(f) && node.self == index
      ensures f.blocks == old(f.blocks) + [node] && fresh(node) && index == |old(f.blocks)|
      ensures MovingTo(old(f.Store()), f.Store(), self, count)
    {
      hide MovingTo, MovedUpTo, Inv, MmapFile.Valid;
      ghost var s := f.Store();
      FullNodePointers(s, g, root, f.slots, self);
      index, node := f.NewNode(parent);
      f.Adopt(index, parent);
      assert Value() == f.Store()[self] && node.Value() == f.Store()[index];
      assert f.Store() == s + [Block(|s|, parent, 0, 0, Zeros(count))];
      MovingStarts(s, self);
      MoveUpper(f, node, s);
    }

    /** The child before the middle entry becomes the last one. */
    method KeepLeft(f: MmapFile, middle: nat)
      requires In(f) && middle < |entries| && entries[middle].smaller < |f.blocks| && entries[middle].smaller != self
      modifies set i | 0 <= i < |f.blocks| :: f.blocks[i]
      ensures In(f) && self == old(self) && parent == old(parent)
      ensures f.Store() == Shortened(WithLarger(old(f.Store()), self, old(entries[middle].smaller)), self, middle)
    {
      hide WithLarger, MmapFile.Valid;
      assert Value() == f.Store()[self];
      WithLargerKeeps(f.Store(), self, entries[middle].smaller, self);
      LargerNode(f, entries[middle].smaller);
      assert Value() == f.Store()[self];
      SetCount(f, middle);
    }

    /** Cuts a full node: the upper half goes to a new node, the middle entry is handed out. */
    method SplitNode(f: MmapFile, ghost g: Metas, ghost root: nat) returns (subtree: Subtree)
      requires InTree(f, g, root) && count == |entries| && f.Room(1)
      modifies f, set i | 0 <= i < |f.blocks| :: f.blocks[i]
      ensures old(f.blocks) <= f.blocks && |f.blocks| == |old(f.blocks)| + 1 && fresh(f.blocks[|old(f.blocks)|])
      ensures f.Usable() && SplitTo(old(f.Store()), f.Store(), old(self))
      ensures self == old(self) && In(f) && parent == old(parent)
      ensures subtree == Subtree(Mid(old(Value())).(smaller := self), |old(f.blocks)|)
    {
      hide MovingTo, MovedUpTo, SplitTo, Inv, WithLarger, Shortened, MmapFile.Valid;
      ghost var s := f.Store();
      FullNodePointers(s, g, root, f.slots, self);
      var middle := |entries| / 2 + 1;
      var index, node := NewRight(f, g, root);
      ghost var s1, m := f.Store(), entries[middle].smaller;
      MovingRoom(s, s1, self, count);
      WithLargerKeeps(s1, |s|, larger, self);
      node.LargerNode(f, larger);
      subtree := Subtree(entries[middle].(smaller := self), index);
      KeepLeft(f, middle);
      SplitEnds(s, g, root, f.slots, s1, self);
    }

    /** Puts a new root above this node and the node beside it. */
    method GrowRoot(f: MmapFile, subtree: Subtree) returns (top: Node)
      requires In(f) && f.Room(1) && subtree.entry.smaller < |f.blocks| && subtree.larger < |f.blocks| && f.slots > 0
      modifies f, set i | 0 <= i < |f.blocks| :: f.blocks[i]
      ensures f.blocks == old(f.blocks) + [top] && fresh(top) && f.Usable()
      ensures f.Store() == Topped(old(f.Store()), f.slots, old(self), subtree.larger, subtree.entry)
    {
      hide WithLarger, Appended;
      ghost var s, x := f.Store(), self;
      var index, parent := f.NewNode(0);
      WithLargerKeeps(f.Store(), index, subtree.larger, index);
      assert parent.Value() == f.Store()[index];
      parent.LargerNode(f, subtree.larger);
      assert parent.Value() == f.Store()[index];
      var done := parent.InsertOnEnd(f, subtree.entry);
      ghost var u := f.Store();
      this.parent := index;
      assert f.Store() == u[x := u[x].(parent := index)];
      return parent;
    }

    /** Cuts the root and puts a new root above the halves. */
    method SplitRoot(f: MmapFile, ghost g: Metas, ghost contents: map<Key, Record>) returns (top: Node, ghost g': Metas)
      requires InTree(f, g, self) && count == |entries| && f.Room(2) && Represents(f.Store(), contents)
      modifies f, set i | 0 <= i < |f.blocks| :: f.blocks[i]
      ensures f.Holds(g', |old(f.blocks)| + 1) && Represents(f.Store(), contents)
        && top == f.blocks[|old(f.blocks)| + 1]
      ensures old(f.blocks) <= f.blocks && |f.blocks| == |old(f.blocks)| + 2
        && forall i :: |old(f.blocks)| <= i < |f.blocks| ==> fresh(f.blocks[i])
      ensures Spared(old(f.Store()), g, f.Store(), g', g[old(self)].height)
      ensures Halved(old(f.Store()), g, f.Store(), g', old(self), |old(f.blocks)|)
      ensures g'[|old(f.blocks)| + 1].height == g[old(self)].height + 1
    {
      hide SplitTo, GrowsTo, Inv, Represents, Spared, Halved, Topped;
      ghost var s, x := f.Store(), self;
      FullNodePointers(s, g, self, f.slots, self);
      var subtree := SplitNode(f, g, self);
      ghost var s1 := f.Store();
      GrowSteps(s, s1, x);
      top := GrowRoot(f, subtree);
      GrowMeans(s, g, x, f.slots, s1, f.Store(), contents);
      return top, GrowMetas(g, x, Mid(s[x]).key);
    }

    /** Cuts a full node and hands the middle entry to a parent that has room. */
    method SplitBelow(f: MmapFile, ghost g: Metas, ghost root: nat, ghost contents: map<Key, Record>)
      returns (top: Node)
      requires InTree(f, g, root) && count == |entries| && f.Room(1) && Represents(f.Store(), contents)
      requires self != root && parent < |f.blocks| && f.blocks[parent].count < f.slots
      modifies f, set i | 0 <= i < |f.blocks| :: f.blocks[i]
      ensures old(f.blocks) <= f.blocks && |f.blocks| == |old(f.blocks)| + 1 && fresh(f.blocks[|old(f.blocks)|])
      ensures var s, x := old(f.Store()), old(self);
              |s[x].entries| >= 3
              && var g' := SplitMetas(g, x, Mid(s[x]).key);
              f.Holds(g', root) && Represents(f.Store(), contents)
              && Spared(s, g, f.Store(), g', g[x].height) && Halved(s, g, f.Store(), g', x, |s|)
    {
      hide SplitTo, JoinsAt, Inv, Represents, Spared, Halved, Moved, Opened, SetKid, Linear, Kid, HasKid;
      ghost var s, x := f.Store(), self;
      FullNodePointers(s, g, root, f.slots, x);
      var subtree := SplitNode(f, g, root);
      ghost var s1, p := f.Store(), parent;
      ghost var k := JoinStarts(s, g, root, f.slots, s1, x);
      var above := f.Convert(parent);
      assert above.Value() == s1[p];
      ghost var slot: nat;
      var done;
      done, slot := above.InsertIntoNode(f, subtree);
      JoinSteps(s, s1, x, k);
      JoinMeans(s, g, root, f.slots, s1, f.Store(), x, k, contents);
      return above;
    }

    /** Cuts a full node whose parent, if it has one, has room. */
    method Split(f: MmapFile, ghost g: Metas, ghost root: nat, ghost contents: map<Key, Record>)
      returns (top: Node, ghost g': Metas, ghost root': nat)
      requires InTree(f, g, root) && count == |entries| && f.Room(if self == root then 2 else 1)
        && Represents(f.Store(), contents)
      requires self != root ==> parent < |f.blocks| && f.blocks[parent].count < f.slots
      modifies f, set i | 0 <= i < |f.blocks| :: f.blocks[i]
      ensures f.Holds(g', root') && Represents(f.Store(), contents)
      ensures old(f.blocks) <= f.blocks && forall i :: |old(f.blocks)| <= i < |f.blocks| ==> fresh(f.blocks[i])
      ensures |f.blocks| == |old(f.blocks)| + (if old(self) == root then 2 else 1)
      ensures Spared(old(f.Store()), g, f.Store(), g', g[old(self)].height)
      ensures Halved(old(f.Store()), g, f.Store(), g', old(self), |old(f.blocks)|)
      ensures root' == if old(self) == root then |old(f.blocks)| + 1 else root
      ensures g'[root'].height == g[root].height + if old(self) == root then 1 else 0
    {
      hide Inv, Represents, Spared, Halved;
      ghost var s, x := f.Store(), self;
      RootHasNoParent(s, g, root, f.slots, x);
      if parent == 0 {
        top, g' := SplitRoot(f, g, contents);
        return top, g', |s| + 1;
      }
      FullNodePointers(s, g, root, f.slots, x);
      top := SplitBelow(f, g, root, contents);
      return top, SplitMetas(g, x, Mid(s[x]).key), root;
    }

    /** A full node is cut, after its parent has been given room for the middle entry. */
    method MakeRoom(f: MmapFile, ghost g: Metas, ghost root: nat, ghost contents: map<Key, Record>)
      returns (split: bool, ghost g': Metas, ghost root': nat, ghost y: nat)
      requires InTree(f, g, root) && Represents(f.Store(), contents)
        && f.Room(Needed(f.Store(), g, root, f.slots, self))
      modifies f, set i | 0 <= i < |f.blocks| :: f.blocks[i]
      ensures split <==> old(count) == f.slots
      ensures !split ==> f.Store() == old(f.Store()) && f.blocks == old(f.blocks) && g' == g && root' == root
      ensures f.Holds(g', root') && Represents(f.Store(), contents)
      ensures old(f.blocks) <= f.blocks && forall i :: |old(f.blocks)| <= i < |f.blocks| ==> fresh(f.blocks[i])
      ensures Spared(old(f.Store()), g, f.Store(), g', g[old(self)].height)
      ensures split ==> Halved(old(f.Store()), g, f.Store(), g', old(self), y)
      ensures |f.blocks| == |old(f.blocks)| + old(Needed(f.Store(), g, root, f.slots, self))
      decreases g[root].height - g[self].height, 1
    {
      hide Inv, Represents, Spared, Halved, Needed;
      ghost var s, x := f.Store(), self;
      ParentIsHigher(s, g, root, f.slots, x);
      RootHasNoParent(s, g, root, f.slots, x);
      NothingHappened(s, g, g[x].height);
      assert s[x] == Value();
      NeededIs(s, g, root, f.slots, x);
      if count != |entries| {
        return false, g, root, 0;
      }
      g', root' := RoomAbove(f, g, root, contents);
      ghost var s1, g1 := f.Store(), g';
      StillFull(s, g, s1, g1, x);
      assert Value() == s1[x];
      y := |f.blocks|;
      var top;
      top, g', root' := Split(f, g1, root', contents);
      SplitsCompose(s, g, s1, g1, f.Store(), g', x, y);
      return true, g', root', y;
    }

    /** The parent of a full node, if there is one, is given room.  It need not be the same parent afterwards. */
    method RoomAbove(f: MmapFile, ghost g: Metas, ghost root: nat, ghost contents: map<Key, Record>)
      returns (ghost g': Metas, ghost root': nat)
      requires InTree(f, g, root) && Represents(f.Store(), contents) && count == |entries|
      requires f.Room(Needed(f.Store(), g, root, f.slots, self))
      modifies f, set i | 0 <= i < |f.blocks| :: f.blocks[i]
      ensures f.Holds(g', root') && Represents(f.Store(), contents)
      ensures old(f.blocks) <= f.blocks && forall i :: |old(f.blocks)| <= i < |f.blocks| ==> fresh(f.blocks[i])
      ensures Spared(old(f.Store()), g, f.Store(), g', g[old(self)].height + 1)
      ensures In(f) && self == old(self) && count == |entries|
      ensures self == root' <==> self == root
      ensures self == root' ==> root' == root && f.blocks == old(f.blocks)
      ensures self != root' ==> parent < |f.blocks| && f.blocks[parent].count < f.slots
      ensures |f.blocks| + (if old(self) == root then 2 else 1)
              == |old(f.blocks)| + old(Needed(f.Store(), g, root, f.slots, self))
      decreases g[root].height - g[self].height, 0
    {
      hide Inv, Represents, Spared, Halved, Needed;
      ghost var s, x := f.Store(), self;
      ParentIsHigher(s, g, root, f.slots, x);
      RootHasNoParent(s, g, root, f.slots, x);
      NothingHappened(s, g, g[x].height + 1);
      assert s[x] == Value();
      NeededIs(s, g, root, f.slots, x);
      g', root' := g, root;
      if parent != 0 {
        var above := f.Convert(parent);
        assert above.Value() == s[parent];
        ghost var y;
        var more;
        more, g', root', y := above.MakeRoom(f, g, root, contents);
        if more {
          NewParentHasRoom(s, g, root, f.Store(), g', root', f.slots, x, y);
        }
        StillFull(s, g, f.Store(), g', x);
        assert Value() == f.Store()[x];
      }
    }

    // ---------- inserting ----------

    /** The search from the root that the tree has now. */
    method SearchAgain(f: MmapFile, key: Key, ghost g: Metas, ghost root: nat) returns (location: Node)
      requires InTree(f, g, root)
      ensures location.In(f) && location.self == Find(f.Store(), g, root, f.slots, root, key).location
    {
      hide Inv, Find;
      ParentIsHigher(f.Store(), g, root, f.slots, self);
      ParentIsHigher(f.Store(), g, root, f.slots, root);
      var top := FindRoot(f, g, root);
      assert top.Value() == f.Store()[root];
      var found;
      found, location := top.FindRecordAndNode(f, key, g, root);
    }

    /** From a leaf found by a search at this root, perhaps full, to one with room. */
    method LeafWithRoom(f: MmapFile, leaf: Node, key: Key, ghost g: Metas, ghost root: nat,
                        ghost contents: map<Key, Record>)
      returns (location: Node, ghost g': Metas, ghost root': nat)
      requires InTree(f, g, root) && Represents(f.Store(), contents) && key !in contents
      requires leaf.In(f) && leaf.self == Find(f.Store(), g, root, f.slots, root, key).location
      requires f.Room(Needed(f.Store(), g, root, f.slots, leaf.self))
      modifies f, set i | 0 <= i < |f.blocks| :: f.blocks[i]
      ensures f.Holds(g', root') && Represents(f.Store(), contents)
      ensures old(f.blocks) <= f.blocks && forall i :: |old(f.blocks)| <= i < |f.blocks| ==> fresh(f.blocks[i])
      ensures location.In(f) && location.count < f.slots && In(f) && self == old(self)
      ensures location.self == Find(f.Store(), g', root', f.slots, root', key).location
      ensures |f.blocks| == |old(f.blocks)| + old(Needed(f.Store(), g, root, f.slots, leaf.self))
    {
      hide Inv, Represents, Spared, Halved, Find, Needed;
      ghost var s, n, x, me := f.Store(), f.slots, leaf.self, self;
      location := leaf;
      FindAgrees(s, g, root, n, contents, key);
      ParentIsHigher(s, g, root, n, x);
      assert leaf.Value() == s[x];
      ghost var y;
      var split;
      split, g', root', y := leaf.MakeRoom(f, g, root, contents);
      assert Value() == f.Store()[me];
      ParentIsHigher(f.Store(), g', root', n, me);
      if split {
        RoomForKey(s, g, root, f.Store(), g', root', n, x, y, key, contents);
        location := SearchAgain(f, key, g', root');
      } else {
        assert leaf.Value() == f.Store()[x];
      }
    }

    /** Inserts a key into the tree this node belongs to. */
    method Insert(f: MmapFile, key: Key, record: Record, ghost g: Metas, ghost root: nat,
                  ghost contents: map<Key, Record>)
      returns (r: Outcome, ghost g': Metas, ghost root': nat)
      requires InTree(f, g, root) && Represents(f.Store(), contents)
      requires f.Room(NeededFor(f.Store(), g, root, f.slots, key, contents))
      modifies f, set i | 0 <= i < |f.blocks| :: f.blocks[i]
      ensures r == if key in contents then AlreadyExists else Done
      ensures r == AlreadyExists ==>
        f.Store() == old(f.Store()) && f.blocks == old(f.blocks) && g' == g && root' == root
      ensures f.Holds(g', root') && Represents(f.Store(), if key in contents then contents else contents[key := record])
      ensures In(f) && self == old(self)
      ensures old(f.blocks) <= f.blocks && forall i :: |old(f.blocks)| <= i < |f.blocks| ==> fresh(f.blocks[i])
      ensures |f.blocks| == |old(f.blocks)| + old(NeededFor(f.Store(), g, root, f.slots, key, contents))
      decreases g[root].height - g[self].height
    {
      hide Inv, Represents, Spared, Halved, Find, Linear, Opened, Needed;
      ghost var s, n := f.Store(), f.slots;
      ParentIsHigher(s, g, root, n, self);
      RootHasNoParent(s, g, root, n, self);
      if parent != 0 {
        var top := FindRoot(f, g, root);
        assert top.Value() == s[root];
        ParentIsHigher(s, g, root, n, root);
        ghost var me := self;
        r, g', root' := top.Insert(f, key, record, g, root, contents);
        assert Value() == f.Store()[me];
        ParentIsHigher(f.Store(), g', root', n, me);
        return;
      }
      FindAgrees(s, g, root, n, contents, key);
      var found, location := FindRecordAndNode(f, key, g, root);
      if found.Some? {
        return AlreadyExists, g, root;
      }
      location, g', root' := LeafWithRoom(f, location, key, g, root, contents);
      ghost var me := location.self;
      LeafTakes(f.Store(), g', root', n, key, record, contents);
      assert location.Value() == f.Store()[location.self];
      ghost var slot;
      r, slot := location.InsertIntoNode(f, Subtree(Entry(0, key, record), 0));
    }

    // ---------- looking at the whole tree ----------

    /** The number of levels, counted along the first children. */
    method Depth(f: MmapFile, ghost g: Metas, ghost root: nat) returns (depth: nat)
      requires InTree(f, g, root) && g[self].lo.None?
      ensures depth == g[self].height + 1
      decreases g[self].height
    {
      ghost var s := f.Store();
      assert NodeOK(s, g, root, f.slots, self);
      assert g[self].height > 0 ==> KidOK(s, g, self, 0);
      if entries[0].smaller == 0 {
        return 1;
      }
      var first := f.Convert(entries[0].smaller);
      assert NodeOK(s, g, root, f.slots, entries[0].smaller);
      depth := first.Depth(f, g, root);
      depth := depth + 1;
    }

    method ValidateLessThan(key: Key) returns (r: Outcome)
      requires Fits(Value())
      ensures r == if AllBelow(Value(), key) then Done else Invalid
    {
      for i := 0 to count
        invariant forall j :: 0 <= j < i ==> entries[j].key < key
      {
        if !(entries[i].key < key) {
          return Invalid;
        }
      }
      return Done;
    }

    method ValidateGreaterThan(key: Key) returns (r: Outcome)
      requires Fits(Value())
      ensures r == if AllAbove(Value(), key) then Done else Invalid
    {
      for i := 0 to count
        invariant forall j :: 0 <= j < i ==> key < entries[j].key
      {
        if !(key < entries[i].key) {
          return Invalid;
        }
      }
      return Done;
    }

    method ValidateParentNode(parent: nat) returns (r: Outcome)
      ensures r == if this.parent == parent then Done else Invalid
    {
      return if this.parent != parent then Invalid else Done;
    }

    /** A well-formed tree passes; the contract says what is looked at in any tree whose links lead downwards, and a
        link that leads out of the file is an exception too. */
    method Validate(f: MmapFile, ghost g: Metas) returns (r: Outcome)
      requires In(f) && self > 0 && Shaped(f.Store(), g)
      ensures r == if Checks(f.Store(), g, self) then Done else Invalid
      ensures r == Done <==> AllProper(f.Store(), self)
      decreases g[self].height
    {
      hide KidBelow, KidAbove, KidKnows, KidChecks, Checks, Shaped, LinksDown, Ascending, AllProper;
      ghost var s := f.Store();
      ChecksIff(s, g, self);
      ChecksWhen(s, g, self);
      if count == 0 {
        return Done;
      }
      var ascending := EntriesAscend();
      if !ascending {
        return Invalid;
      }
      r := KidsBetween(f, g);
      if r != Done {
        return;
      }
      r := KidsKnow(f, g);
      if r != Done {
        return;
      }
      for i := 0 to count
        invariant forall k :: 0 <= k < i ==> KidChecks(s, g, self, k)
      {
        r := ValidateKid(f, g, i, entries[i].smaller);
        if r != Done {
          return;
        }
      }
      r := ValidateKid(f, g, count, larger);
    }

    method KidsBetween(f: MmapFile, ghost g: Metas) returns (r: Outcome)
      requires In(f) && self > 0 && count > 0 && Shaped(f.Store(), g)
      ensures r == if forall k :: 0 <= k <= count ==> KidBelow(f.Store(), g, self, k) && KidAbove(f.Store(), g, self, k)
                   then Done else Invalid
    {
      hide KidBelow, KidAbove, KidKnows, KidChecks, Shaped, LinksDown;
      ghost var s := f.Store();
      ChecksWhen(s, g, self);
      for i := 0 to count
        invariant forall k :: 0 <= k < i ==> KidBelow(s, g, self, k)
      {
        r := KidIsBelow(f, g, i, entries[i].smaller);
        if r != Done {
          return;
        }
      }
      for i := 1 to count
        invariant forall k :: 0 <= k < i ==> KidAbove(s, g, self, k)
      {
        r := KidIsAbove(f, g, i, entries[i].smaller);
        if r != Done {
          return;
        }
      }
      r := KidIsAbove(f, g, count, larger);
    }

    method KidsKnow(f: MmapFile, ghost g: Metas) returns (r: Outcome)
      requires In(f) && self > 0 && Shaped(f.Store(), g)
      ensures r == if forall k :: 0 <= k <= count ==> KidKnows(f.Store(), g, self, k) then Done else Invalid
    {
      hide KidBelow, KidAbove, KidKnows, KidChecks, Shaped, LinksDown;
      ghost var s := f.Store();
      for i := 0 to count
        invariant forall k :: 0 <= k < i ==> KidKnows(s, g, self, k)
      {
        r := KidHasParent(f, g, i, entries[i].smaller);
        if r != Done {
          return;
        }
      }
      r := KidHasParent(f, g, count, larger);
    }

    method EntriesAscend() returns (ascending: bool)
      requires Fits(Value())
      ensures ascending <==> Ascending(Value())
    {
      if count == 0 {
        return true;
      }
      for i := 1 to count
        invariant forall j, k :: 0 <= j < k < i ==> entries[j].key < entries[k].key
      {
        if !(entries[i - 1].key < entries[i].key) {
          return false;
        }
      }
      return true;
    }

    method KidIsBelow(f: MmapFile, ghost g: Metas, slot: nat, child: nat) returns (r: Outcome)
      requires In(f) && self > 0 && Shaped(f.Store(), g) && slot < count && child == Kid(Value(), slot)
      ensures r == if KidBelow(f.Store(), g, self, slot) then Done else Invalid
    {
      ghost var s := f.Store();
      assert LinksDown(s, g, self);
      if child == 0 {
        return Done;
      }
      var reference := f.GetReference(child);
      if reference.None? {
        return Invalid;
      }
      var node := reference.value;
      assert LinksDown(s, g, child);
      r := node.ValidateLessThan(entries[slot].key);
    }

    method KidIsAbove(f: MmapFile, ghost g: Metas, slot: nat, child: nat) returns (r: Outcome)
      requires In(f) && self > 0 && Shaped(f.Store(), g) && 0 < slot <= count && child == Kid(Value(), slot)
      ensures r == if KidAbove(f.Store(), g, self, slot) then Done else Invalid
    {
      ghost var s := f.Store();
      assert LinksDown(s, g, self);
      if child == 0 {
        return Done;
      }
      var reference := f.GetReference(child);
      if reference.None? {
        return Invalid;
      }
      var node := reference.value;
      assert LinksDown(s, g, child);
      r := node.ValidateGreaterThan(entries[slot - 1].key);
    }

    method KidHasParent(f: MmapFile, ghost g: Metas, slot: nat, child: nat) returns (r: Outcome)
      requires In(f) && self > 0 && Shaped(f.Store(), g) && slot <= count && child == Kid(Value(), slot)
      ensures r == if KidKnows(f.Store(), g, self, slot) then Done else Invalid
    {
      ghost var s := f.Store();
      assert LinksDown(s, g, self);
      if child == 0 {
        return Done;
      }
      var reference := f.GetReference(child);
      if reference.None? {
        return Invalid;
      }
      var node := reference.value;
      r := node.ValidateParentNode(self);
    }

    method ValidateKid(f: MmapFile, ghost g: Metas, slot: nat, child: nat) returns (r: Outcome)
      requires In(f) && self > 0 && Shaped(f.Store(), g) && slot <= count && child == Kid(Value(), slot)
      ensures r == if KidChecks(f.Store(), g, self, slot) then Done else Invalid
      decreases g[self].height, 0
    {
      ghost var s := f.Store();
      assert LinksDown(s, g, self);
      if child == 0 {
        return Done;
      }
      var reference := f.GetReference(child);
      if reference.None? {
        return Invalid;
      }
      var node := reference.value;
      assert LinksDown(s, g, child);
      r := node.Validate(f, g);
    }
  }
}
