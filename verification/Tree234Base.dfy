/** The tree object, its invariant, and the two read-only walks: by index and by comparison. */
module Tree234Base {
  import opened Wrappers
  import opened Tree234Shapes
  import opened Tree234Nodes

  // ---------- comparisons ----------

  type Cmp = (Ptr, Ptr) -> int

  /** What `cmp` must be for a sorted tree: a total order up to equivalence. */
  ghost predicate Comparison(cmp: Cmp) {
    && (forall a, b :: cmp(a, b) < 0 <==> cmp(b, a) > 0)
    && (forall a, b, c :: cmp(a, b) <= 0 && cmp(b, c) < 0 ==> cmp(a, c) < 0)
    && (forall a, b, c :: cmp(a, b) < 0 && cmp(b, c) <= 0 ==> cmp(a, c) < 0)
  }

  /** The difference of the elements is such a comparison. */
  lemma DifferenceCompares()
    ensures Comparison((a: Ptr, b: Ptr) => a - b)
  {
  }

  /** The comparison the other way round, and by way of a third element. */
  lemma Compares(cmp: Cmp, a: Ptr, b: Ptr, c: Ptr)
    requires Comparison(cmp)
    ensures cmp(a, b) < 0 <==> cmp(b, a) > 0
    ensures cmp(a, b) <= 0 && cmp(b, c) < 0 ==> cmp(a, c) < 0
    ensures cmp(a, b) < 0 && cmp(b, c) <= 0 ==> cmp(a, c) < 0
  {
  }

  ghost predicate Sorted(cmp: Cmp, q: seq<Ptr>) {
    forall i, j :: 0 <= i < j < |q| ==> cmp(q[i], q[j]) < 0
  }

  // ---------- the tree object ----------

  class Tree234 {
    var root: Node?
    const cmp: Option<Cmp>
    ghost var shape: Shape
    ghost var height: nat

    ghost predicate Valid()
      reads this, Refs(shape)
    {
      && root == RefOf(shape)
      && (root != null ==> root.parent == null)
      && Good(shape, height)
      && (cmp.Some? ==> Comparison(cmp.value) && Sorted(cmp.value, Flat(shape)))
    }

    /** The list the tree stands for. */
    ghost function Contents(): seq<Ptr>
      reads this
    {
      Flat(shape)
    }

    ghost function Repr(): set<Node>
      reads this
    {
      Refs(shape)
    }

    constructor (cmp: Option<Cmp>)
      requires cmp.Some? ==> Comparison(cmp.value)
      ensures Valid() && Contents() == [] && Repr() == {} && this.cmp == cmp
    {
      root := null;
      this.cmp := cmp;
      shape, height := Nil, 0;
    }
  }

  lemma {:induction false} NonNull(s: Shape, h: nat, i: nat)
    requires WF(s, h) && i < Size(s)
    ensures Flat(s)[i] != NULL
    decreases h
  {
    SizeIs(s);
    ghost var k := 0;
    while k < |s.elems| && i > |Before(s, k)| + Size(s.kids[k])
      invariant k <= |s.elems| && |Before(s, k)| <= i
    {
      Offsets(s, k);
      k := k + 1;
    }
    Offsets(s, k);
    if i < |Before(s, k)| + Size(s.kids[k]) {
      KidOffset(s, k, i - |Before(s, k)|);
      NonNull(s.kids[k], h - 1, i - |Before(s, k)|);
    }
  }

  // ---------- count and index ----------

  method Count234(t: Tree234) returns (count: int)
    requires t.Valid()
    ensures count == |t.Contents()|
  {
    count := CountNode234(t.root);
    if t.root != null {
      CountIs(t.shape);
    }
  }

  /** Where an index leads in one node: to one of its elements or on into one of its kids. */
  datatype Rung = Elem(ei: nat) | Kid(ki: nat, index: int)

  function Ladder(n: Node, index: int): Rung
    requires |n.counts| == 4
    reads n`counts
  {
    var i0 := index - (n.counts[0] + 1);
    var i1 := i0 - (n.counts[1] + 1);
    var i2 := i1 - (n.counts[2] + 1);
    if index < n.counts[0] then Kid(0, index)
    else if i0 < 0 then Elem(0)
    else if i0 < n.counts[1] then Kid(1, i0)
    else if i1 < 0 then Elem(1)
    else if i1 < n.counts[2] then Kid(2, i1)
    else if i2 < 0 then Elem(2)
    else Kid(3, i2)
  }

  ghost predicate Leads(s: Shape, h: nat, index: int, r: Rung)
    requires NodeLike(s) && 0 <= index < Size(s)
    reads Refs(s)`kids, Refs(s)`elems
  {
    if r.Elem? then
      && r.ei < |s.elems| && index == |Before(s, r.ei)| + Size(s.kids[r.ei])
      && |s.ref.elems| == 3 && Flat(s)[index] == s.elems[r.ei] == s.ref.elems[r.ei] != NULL
    else
      && h >= 2 && r.ki < |s.kids| && |s.ref.kids| == 4 && s.ref.kids[r.ki] == RefOf(s.kids[r.ki]) != null
      && 0 <= r.index < Size(s.kids[r.ki]) && index == |Before(s, r.ki)| + r.index
      && Flat(s)[index] == Flat(s.kids[r.ki])[r.index]
  }

  /** The fields that the ladder reads. */
  lemma LadderFields(s: Shape, h: nat)
    requires Good(s, h) && h >= 1
    ensures NodeLike(s) && |s.ref.kids| == |s.ref.counts| == 4 && |s.ref.elems| == 3
    ensures forall k :: 0 <= k < |s.kids| ==> s.ref.kids[k] == RefOf(s.kids[k]) && s.ref.counts[k] == Size(s.kids[k])
    ensures forall k :: |s.kids| <= k < 4 ==> s.ref.counts[k] == 0
    ensures forall k :: 0 <= k < |s.elems| ==> s.ref.elems[k] == s.elems[k] != NULL
    ensures forall k :: 0 <= k < |s.kids| ==> if h == 1 then s.kids[k] == Nil else RefOf(s.kids[k]) != null
  {
    forall k | 0 <= k < |s.kids|
      ensures if h == 1 then s.kids[k] == Nil else RefOf(s.kids[k]) != null
    {
      assert WF(s.kids[k], h - 1);
    }
  }

  lemma NilIsEmpty()
    ensures Size(Nil) == 0
  {
  }

  lemma LadderIs(s: Shape, h: nat, index: int)
    requires Good(s, h) && h >= 1 && 0 <= index < Size(s)
    ensures Leads(s, h, index, Ladder(s.ref, index))
  {
    hide Good, WF, Rep, Distinct, Flat, FlatL, Size, Before;
    LadderFields(s, h);
    NilIsEmpty();
    Offsets(s, 0);
    Offsets(s, 1);
    if |s.kids| > 2 { Offsets(s, 2); }
    if |s.kids| > 3 { Offsets(s, 3); }
    var r := Ladder(s.ref, index);
    if r.Kid? { KidOffset(s, r.ki, r.index); }
  }

  method Index234(t: Tree234, index0: int) returns (ret: Ptr)
    requires t.Valid()
    ensures ret == if 0 <= index0 < |t.Contents()| then t.Contents()[index0] else NULL
    ensures 0 <= index0 < |t.Contents()| ==> ret != NULL
  {
    var index := index0;
    if t.root == null { return NULL; }
    assert allocated(t.Repr());
    var count := Count234(t);
    if index < 0 || index >= count { return NULL; }
    var n := t.root;
    ghost var s, h := t.shape, t.height;
    while n != null
      invariant n != null && RefOf(s) == n && Good(s, h)
      invariant 0 <= index < Size(s) && Flat(s)[index] == t.Contents()[index0]
      decreases h
    {
      LadderIs(s, h, index);
      var r := Ladder(n, index);
      if r.Elem? { return n.elems[r.ei]; }
      GoodKid(s, h, r.ki);
      n, index := n.kids[r.ki], r.index;
      s, h := s.kids[r.ki], h - 1;
    }
    return NULL;
  }
}
