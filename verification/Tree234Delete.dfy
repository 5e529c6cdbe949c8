/** delpos234 and del234: one pass down the tree that never stands on a 1-element node but the root. */
module Tree234Delete {
  import opened Wrappers
  import opened Tree234Shapes
  import opened Tree234Nodes
  import opened Tree234Pairs
  import opened Tree234Cases
  import opened Tree234Base
  import opened Tree234Search

  // ---------- one step down ----------

  lemma MergedIs(s: Shape, h: nat, i: nat, m: Shape, s': Shape)
    requires h >= 2 && NodeLike(s) && i < |s.elems| && Merged(s, h, i, m, s')
    ensures Slot(s', i) && s'.kids[i] == m && NodeLike(m) && |m.elems| == 3
    ensures Flat(s') == Flat(s) && Refs(m) <= Refs(s') <= Refs(s) && Before(s', i) == Before(s, i)
    ensures Size(m) == Size(s.kids[i]) + 1 + Size(s.kids[i + 1])
    ensures |s.elems| >= 2 ==> Good(s', h) && s'.elems != []
    ensures |s.elems| == 1 ==> Flat(m) == Flat(s)
    ensures |s.elems| == 1 ==> s'.elems == [] && s'.kids == [m]
    ensures Good(m, h - 1) && m.ref.parent == s.ref && s'.ref == s.ref && |s'.ref.elems| == 3
    ensures s'.ref.elems[0] == NULL <==> |s.elems| == 1
  {
    RepAt(s'.kids, s'.ref, i);
    DistinctAt(s'.kids, i);
    assert |s.elems| >= 2 ==> s'.elems[0] != NULL;
  }

  /** What is known of a kid from the fields of the node above it. */
  lemma KidFacts(s: Shape, h: nat, i: nat)
    requires Good(s, h) && h >= 2 && i < |s.kids|
    ensures NodeLike(s) && NodeLike(s.kids[i])
    ensures var n, k := s.ref, s.kids[i];
      && |n.kids| == |n.counts| == 4 && |n.elems| == 3 && n.kids[i] == k.ref && n.counts[i] == Size(k)
      && |k.ref.elems| == 3 && (k.ref.elems[1] == NULL <==> |k.elems| == 1) && n.elems[0] != NULL
    ensures Good(s.kids[i], h - 1)
  {
    GoodKid(s, h, i);
    KidsAre(s, h);
  }

  /** Makes sure that the kid to descend to has two elements (cases 3a and 3b).  The place `index`
      looked for stays the same place; after case 3b the node `n` may be left without elements. */
  method MakeRoom(n: Node, ki0: nat, index0: int, ghost s: Shape, ghost h: nat)
    returns (sub: Node, index: int, ghost ki: nat, ghost s': Shape)
    requires NodeLike(s) && Good(s, h) && h >= 2 && s.ref == n && ki0 < |s.kids| && 0 <= index0 < Size(s.kids[ki0])
    modifies Refs(s)`kids, Refs(s)`counts, Refs(s)`elems, RefsL(s.kids)`parent
    ensures Slot(s', ki) && s'.ref == n && NodeLike(s'.kids[ki]) && sub == s'.kids[ki].ref && |s'.kids[ki].elems| >= 2
    ensures Flat(s') == Flat(s) && Refs(s') <= Refs(s)
    ensures 0 <= index < Size(s'.kids[ki]) && |Before(s', ki)| + index == |Before(s, ki0)| + index0
    ensures |n.elems| == 3 && (n.elems[0] == NULL <==> s'.elems == [])
    ensures s'.elems != [] ==> Good(s', h)
    ensures s'.elems == [] ==>
      |s.elems| == 1 && ki == 0 && Good(s'.kids[0], h - 1) && Refs(s'.kids[0]) <= Refs(s) && Flat(s'.kids[0]) == Flat(s)
  {
    hide Good, Rep, RepL, Refs, RefsL, Distinct, DistinctL, WF, Flat, FlatL, Fields, Before, Merged;
    ki, index, s' := ki0, index0, s;
    KidFacts(s, h, ki0);
    sub := n.kids[ki0];
    if sub.elems[1] == NULL {
      LastSlot(s, h, ki0);
      if ki0 > 0 { KidFacts(s, h, ki0 - 1); }
      if ki0 < |s.elems| { KidFacts(s, h, ki0 + 1); }
      if ki0 > 0 && n.kids[ki0 - 1].elems[1] != NULL {
        index, s' := Case3aLeft(n, ki0, index0, s, h);
        KidFacts(s', h, ki0);
      } else if ki0 < 3 && n.kids[ki0 + 1] != null && n.kids[ki0 + 1].elems[1] != NULL {
        s' := Case3aRight(n, ki0, s, h);
        KidFacts(s', h, ki0);
      } else {
        var i := ki0;
        if i > 0 {
          i := i - 1;
          index := index + n.counts[i] + 1;
          BeforeStep(s, i);
        }
        sub := n.kids[i + 1];
        ghost var m;
        m, s' := Case3b(n, i, s, h);
        ki := i;
        MergedIs(s, h, i, m, s');
      }
    }
  }

  lemma LastSlot(s: Shape, h: nat, i: nat)
    requires Good(s, h) && h >= 1 && i < |s.kids|
    ensures |s.ref.kids| == 4 && (i < 3 && s.ref.kids[i + 1] != null ==> i < |s.elems|)
  {
  }

  // ---------- standing on a node of the tree ----------

  /** The deletion stands on `n`, the node of the subtree `s` in place `c`; unless that is the
      root, `n` has an element to spare. */
  ghost predicate Here(t: Tree234, n: Node, c: Ctx, s: Shape, h: nat)
    reads t`root, if CtxOK(c) then CtxRefs(c) else {}, Refs(s)
  {
    At(c, s, h, 0) && s.Nd? && s.ref == n && t.root == TopRef(c, n) && (c.In? ==> |s.elems| >= 2)
  }

  lemma AtParts(c: Ctx, s: Shape, h: nat, delta: int)
    requires At(c, s, h, delta) && s.Nd?
    ensures h >= 1 && NodeLike(s) && Good(s, h) && CtxOK(c) && WFCtx(c, h) && DistinctCtx(c)
    ensures CtxRefs(c) !! Refs(s) && RepCtx(c, s.ref, Size(s) + delta) && s.ref.parent == CtxRef(c)
    ensures s.ref in Refs(s) && s.ref !in RefsL(s.kids) && RefsL(s.kids) <= Refs(s)
  {
  }

  lemma AtAgain(c: Ctx, s: Shape, h: nat, delta: int)
    requires CtxOK(c) && WFCtx(c, h) && DistinctCtx(c) && Good(s, h) && s.Nd?
    requires CtxRefs(c) !! Refs(s) && RepCtx(c, s.ref, Size(s) + delta) && s.ref.parent == CtxRef(c)
    ensures At(c, s, h, delta)
  {
  }

  /** A step from `n` down to the kid that holds place `index`. */
  method DescendStep(t: Tree234, n: Node, ki0: nat, index0: int, ghost c: Ctx, ghost s: Shape, ghost h: nat)
    returns (sub: Node, index: int, ghost c': Ctx, ghost s': Shape)
    requires Here(t, n, c, s, h) && h >= 2 && ki0 < |s.kids| && Slot(s, ki0) && 0 <= index0 < Size(s.kids[ki0])
    modifies t`root, Refs(s)
    ensures Here(t, sub, c', s', h - 1) && 0 <= index < Size(s')
    ensures CtxOK(c) && CtxOK(c') && Whole(c', s') == Whole(c, s)
    ensures |Left(c')| + index == |Left(c)| + |Before(s, ki0)| + index0
    ensures CtxRefs(c') + Refs(s') <= CtxRefs(c) + Refs(s)
  {
    hide Good, Rep, RepL, Refs, RefsL, Distinct, DistinctL, WF, Flat, FlatL, Fields, Before;
    hide At, RepCtx, CtxRefs, WFCtx, DistinctCtx;
    AtParts(c, s, h, 0);
    assert allocated(Refs(s)) && allocated(CtxRefs(c));
    ghost var ki, s1;
    sub, index, ki, s1 := MakeRoom(n, ki0, index0, s, h);
    if n.elems[0] == NULL {
      IsGood(s1.kids[0], h - 1);
      t.root := sub;
      sub.parent := null;
      c', s' := Top, s1.kids[0];
      RootIs(s', h - 1);
      SlotZero(s1);
    } else {
      AtAgain(c, s1, h, 0);
      Down(c, s1, h, ki);
      WholeDown(c, s1, ki);
      c', s' := In(c, s1, ki), s1.kids[ki];
    }
  }

  lemma RootIs(s: Shape, h: nat)
    requires Good(s, h) && s.Nd? && s.ref.parent == null
    ensures At(Top, s, h, 0) && CtxRefs(Top) == {}
  {
  }

  lemma SlotZero(s: Shape)
    requires Slot(s, 0)
    ensures Before(s, 0) == []
  {
  }

  // ---------- the descent to the element ----------

  /** The inner loop: descends until the place `index` is an element `ei` of the node it stands on. */
  method Seek(t: Tree234, n0: Node, index0: int, ghost c0: Ctx, ghost s0: Shape, ghost h0: nat)
    returns (n: Node, ei: nat, ghost c: Ctx, ghost s: Shape, ghost h: nat)
    requires Here(t, n0, c0, s0, h0) && 0 <= index0 < Size(s0)
    modifies t`root, CtxRefs(c0), Refs(s0)
    ensures Here(t, n, c, s, h) && NodeLike(s) && ei < |s.elems| && h <= h0
    ensures CtxOK(c0) && CtxOK(c) && Whole(c, s) == Whole(c0, s0)
    ensures |Left(c)| + |Before(s, ei)| + Size(s.kids[ei]) == |Left(c0)| + index0
    ensures CtxRefs(c) + Refs(s) <= CtxRefs(c0) + Refs(s0)
  {
    hide Good, Rep, RepL, Refs, RefsL, Distinct, DistinctL, WF, Flat, FlatL, Fields, Before;
    hide RepCtx, CtxRefs, WFCtx, DistinctCtx, Leads, At, Whole, Left;
    n, c, s, h := n0, c0, s0, h0;
    var index := index0;
    AtParts(c, s, h, 0);
    assert allocated(Refs(s)) && allocated(CtxRefs(c));
    while true
      invariant Here(t, n, c, s, h) && NodeLike(s) && CtxOK(c) && 0 <= index < Size(s) && h <= h0
      invariant Whole(c, s) == Whole(c0, s0) && |Left(c)| + index == |Left(c0)| + index0
      invariant CtxRefs(c) + Refs(s) <= CtxRefs(c0) + Refs(s0)
      decreases h
    {
      AtParts(c, s, h, 0);
      LadderIs(s, h, index);
      LeadsIs(s, h, index);
      var r := Ladder(n, index);
      if r.Elem? {
        ei := r.ei;
        return;
      }
      n, index, c, s := DescendStep(t, n, r.ki, r.index, c, s, h);
      h := h - 1;
      AtParts(c, s, h, 0);
    }
  }

  lemma LeadsIs(s: Shape, h: nat, index: int)
    requires NodeLike(s) && Good(s, h) && h >= 1 && 0 <= index < Size(s)
    requires Leads(s, h, index, Ladder(s.ref, index))
    ensures |s.ref.counts| == 4
    ensures var r := Ladder(s.ref, index);
      if r.Elem? then r.ei < |s.elems| && index == |Before(s, r.ei)| + Size(s.kids[r.ei])
      else h >= 2 && Slot(s, r.ki) && 0 <= r.index < Size(s.kids[r.ki]) && index == |Before(s, r.ki)| + r.index
  {
  }

  // ---------- the four ways to go on ----------

  /** Overwriting an element with its neighbour and then removing the neighbour. */
  lemma RemoveShifted(q: seq<Ptr>, g: int)
    requires 0 <= g < |q|
    ensures g > 0 ==> Without(q[g := q[g - 1]], g - 1) == Without(q, g)
    ensures g + 1 < |q| ==> Without(q[g := q[g + 1]], g + 1) == Without(q, g)
  {
  }

  /** The last element of a subtree, at the end of its rightmost path. */
  method LastElem(m0: Node, ghost s0: Shape, ghost h0: nat) returns (target: Ptr)
    requires Good(s0, h0) && h0 >= 1 && s0.ref == m0
    ensures Size(s0) > 0 && target == Flat(s0)[Size(s0) - 1] && target != NULL
  {
    var m := m0;
    ghost var s, h := s0, h0;
    while m.kids[0] != null
      invariant h >= 1 && Good(s, h) && s.Nd? && s.ref == m
      invariant Size(s) > 0 <==> Size(s0) > 0
      invariant Size(s) > 0 ==> Flat(s)[Size(s) - 1] == Flat(s0)[Size(s0) - 1]
      decreases h
    {
      ghost var l := |s.elems|;
      LastOf(s, h);
      GoodKid(s, h, l);
      m := if m.kids[3] != null then m.kids[3] else if m.kids[2] != null then m.kids[2]
        else if m.kids[1] != null then m.kids[1] else m.kids[0];
      s, h := s.kids[l], h - 1;
    }
    LastOf(s, h);
    GoodKid(s, h, 0);
    assert NodeLike(s) && Local(s, -1, null, 0) && h == 1;
    assert s.elems[|s.elems| - 1] == m.elems[|s.elems| - 1] == Flat(s)[Size(s) - 1];
    target := if m.elems[2] != NULL then m.elems[2] else if m.elems[1] != NULL then m.elems[1] else m.elems[0];
  }

  lemma LastOf(s: Shape, h: nat)
    requires Good(s, h) && h >= 1
    ensures Size(s) > 0
    ensures var l := |s.elems|;
      if h == 1 then Flat(s)[Size(s) - 1] == s.elems[l - 1] != NULL
      else Size(s.kids[l]) > 0 && Flat(s)[Size(s) - 1] == Flat(s.kids[l])[Size(s.kids[l]) - 1]
  {
    var l := |s.elems|;
    Offsets(s, l);
    Offsets(s, l - 1);
    SizeZero(s.kids[l], h - 1);
    if h > 1 { KidOffset(s, l, Size(s.kids[l]) - 1); }
  }

  /** The first element of a subtree, at the end of its leftmost path. */
  method FirstElem(m0: Node, ghost s0: Shape, ghost h0: nat) returns (target: Ptr)
    requires Good(s0, h0) && h0 >= 1 && s0.ref == m0
    ensures Size(s0) > 0 && target == Flat(s0)[0] && target != NULL
  {
    var m := m0;
    ghost var s, h := s0, h0;
    while m.kids[0] != null
      invariant h >= 1 && Good(s, h) && s.Nd? && s.ref == m
      invariant (Size(s) > 0 <==> Size(s0) > 0) && (Size(s) > 0 ==> Flat(s)[0] == Flat(s0)[0])
      decreases h
    {
      FirstOf(s, h);
      GoodKid(s, h, 0);
      m := m.kids[0];
      s, h := s.kids[0], h - 1;
    }
    FirstOf(s, h);
    target := m.elems[0];
  }

  lemma FirstOf(s: Shape, h: nat)
    requires Good(s, h) && h >= 1
    ensures Size(s) > 0
    ensures if h == 1 then Flat(s)[0] == s.elems[0] else Size(s.kids[0]) > 0 && Flat(s)[0] == Flat(s.kids[0])[0]
  {
    Offsets(s, 0);
    SizeZero(s.kids[0], h - 1);
    if h > 1 { KidOffset(s, 0, 0); }
  }

  lemma {:induction false} LeafFlat(ks: seq<Shape>, es: seq<Ptr>)
    requires |ks| == |es| + 1 && forall i :: 0 <= i < |ks| ==> ks[i].Nil?
    ensures FlatL(ks, es) == es && RefsL(ks) == {} && DistinctL(ks)
  {
    assert ks[0] == Nil && Refs(ks[0]) == {} && Flat(ks[0]) == [];
    if es == [] {
      assert ks[1..] == [] && RefsL(ks[1..]) == {} && DistinctL(ks[1..]);
      assert FlatL(ks, es) == [];
    } else {
      LeafFlat(ks[1..], es[1..]);
      assert FlatL(ks, es) == [es[0]] + FlatL(ks[1..], es[1..]);
    }
  }

  /** The shape of a leaf without its element `ei`. */
  function LeafWithout(s: Shape, ei: nat): Shape
    requires s.Nd? && ei < |s.elems| && |s.kids| == |s.elems| + 1
  {
    Nd(s.ref, s.kids[1..], Without(s.elems, ei))
  }

  lemma LeafWithoutIs(s: Shape, ei: nat)
    requires Good(s, 1) && |s.elems| >= 2 && ei < |s.elems|
    ensures NodeLike(s) && Local(s, -1, null, 0)
    ensures var s' := LeafWithout(s, ei);
      && WF(s', 1) && Distinct(s') && Refs(s') == {s.ref} == Refs(s) && Flat(s) == s.elems
         && Flat(s') == Without(s.elems, ei)
      && RefsL(s'.kids) == {} && |Before(s, ei)| + Size(s.kids[ei]) == ei
  {
    var s' := LeafWithout(s, ei);
    LeafFlat(s.kids, s.elems);
    LeafFlat(s'.kids, s'.elems);
    LeafFlat(s.kids[..ei + 1], s.elems[..ei]);
    Offsets(s, ei);
    FlatSplit(s.kids[..ei + 1], s.elems[..ei], ei);
    assert s.kids[..ei + 1][..ei] == s.kids[..ei] && s.elems[..ei][..ei] == s.elems[..ei];
  }

  lemma {:induction false} LeafRep(ks: seq<Shape>, p: Node)
    requires forall i :: 0 <= i < |ks| ==> ks[i].Nil?
    ensures RepL(ks, p)
  {
    if ks != [] { LeafRep(ks[1..], p); }
  }

  /** Case 1: the element goes from a leaf. */
  method DropFromLeaf(n: Node, ei: nat, ghost s: Shape)
    requires Good(s, 1) && s.ref == n && |s.elems| >= 2 && ei < |s.elems|
    modifies n`elems
    ensures |s.kids| == |s.elems| + 1 && Good(LeafWithout(s, ei), 1)
  {
    LeafWithoutIs(s, ei);
    ghost var E := n.elems;
    assert forall i {:trigger E[i]} :: 0 <= i < 3 ==> (E[i] != NULL <==> i < |s.elems|);
    var i := ei;
    while i < 2 && n.elems[i + 1] != NULL
      invariant ei <= i < |s.elems| && |n.elems| == 3
      invariant forall j {:trigger n.elems[j]} :: 0 <= j < 3 ==> n.elems[j] == if ei <= j < i then E[j + 1] else E[j]
    {
      n.elems := n.elems[i := n.elems[i + 1]];
      i := i + 1;
    }
    assert i == |s.elems| - 1;
    n.elems := n.elems[i := NULL];
    LeafRep(LeafWithout(s, ei).kids, n);
  }

  /** Cases 2a and 2b put another element in the place of `ei`. */
  function Overwritten(s: Shape, ei: nat, v: Ptr): Shape
    requires s.Nd? && ei < |s.elems|
  {
    Nd(s.ref, s.kids, s.elems[ei := v])
  }

  lemma OverwrittenIs(s: Shape, h: nat, ei: nat, v: Ptr)
    requires WF(s, h) && Distinct(s) && h >= 1 && ei < |s.elems| && v != NULL
    ensures NodeLike(s)
    ensures var s' := Overwritten(s, ei, v); var at := |Before(s, ei)| + Size(s.kids[ei]);
      && WF(s', h) && Distinct(s') && Refs(s') == Refs(s)
      && 0 <= at < Size(s) && Flat(s') == Flat(s)[at := v] && NodeLike(s')
      && Before(s', ei) == Before(s, ei) && |Before(s', ei + 1)| == |Before(s, ei + 1)| == at + 1
  {
    hide Flat, FlatL, Before;
    OverwrittenFlat(s, ei, v);
  }

  lemma OverwrittenFlat(s: Shape, ei: nat, v: Ptr)
    requires NodeLike(s) && ei < |s.elems| && v != NULL
    ensures var s' := Overwritten(s, ei, v); var at := |Before(s, ei)| + Size(s.kids[ei]);
      && 0 <= at < Size(s) && Flat(s') == Flat(s)[at := v]
      && Before(s', ei) == Before(s, ei) && |Before(s', ei + 1)| == |Before(s, ei + 1)| == at + 1
  {
    hide FlatL, PreL, PostL;
    var s' := Overwritten(s, ei, v);
    FlatPair(s, ei);
    FlatPair(s', ei);
    assert s'.elems[..ei] == s.elems[..ei] && s'.elems[ei + 1..] == s.elems[ei + 1..];
    InTheMiddle(Before(s, ei) + Flat(s.kids[ei]), s.elems[ei], v, Flat(s.kids[ei + 1]) + After(s, ei + 1));
    assert Flat(s) == (Before(s, ei) + Flat(s.kids[ei])) + [s.elems[ei]] + (Flat(s.kids[ei + 1]) + After(s, ei + 1));
    assert Flat(s') == (Before(s, ei) + Flat(s.kids[ei])) + [v] + (Flat(s.kids[ei + 1]) + After(s, ei + 1));
  }

  lemma InTheMiddle(a: seq<Ptr>, e: Ptr, v: Ptr, b: seq<Ptr>)
    ensures a + [v] + b == (a + [e] + b)[|a| := v]
  {
  }

  method Overwrite(n: Node, ei: nat, v: Ptr, ghost s: Shape, ghost h: nat)
    requires Good(s, h) && h >= 1 && s.ref == n && ei < |s.elems| && v != NULL
    modifies n`elems
    ensures Good(Overwritten(s, ei, v), h)
  {
    OverwrittenIs(s, h, ei, v);
    assert NodeLike(s) && RepL(s.kids, n) && n !in RefsL(s.kids);
    n.elems := n.elems[ei := v];
    assert RepL(s.kids, n);
  }

  /** The place of element `ei` of the node in the whole tree. */
  ghost function Place(c: Ctx, s: Shape, ei: nat): int
    requires CtxOK(c) && Slot(s, ei)
  {
    |Left(c)| + |Before(s, ei)| + Size(s.kids[ei])
  }

  lemma PlaceIs(c: Ctx, s: Shape, ei: nat)
    requires CtxOK(c) && Slot(s, ei) && ei < |s.elems|
    ensures 0 <= Place(c, s, ei) < |Whole(c, s)| && Whole(c, s)[Place(c, s, ei)] == s.elems[ei]
    ensures Size(s.kids[ei]) > 0 ==>
      Place(c, s, ei) > 0 && Whole(c, s)[Place(c, s, ei) - 1] == Flat(s.kids[ei])[Size(s.kids[ei]) - 1]
    ensures Size(s.kids[ei + 1]) > 0 ==>
      Place(c, s, ei) + 1 < |Whole(c, s)| && Whole(c, s)[Place(c, s, ei) + 1] == Flat(s.kids[ei + 1])[0]
    ensures |Before(s, ei + 1)| == |Before(s, ei)| + Size(s.kids[ei]) + 1
  {
    Offsets(s, ei);
    if Size(s.kids[ei]) > 0 { KidOffset(s, ei, Size(s.kids[ei]) - 1); }
    if Size(s.kids[ei + 1]) > 0 { KidOffset(s, ei + 1, 0); }
  }

  lemma WholeUpdated(c: Ctx, s: Shape, s': Shape, at: int, v: Ptr)
    requires CtxOK(c) && 0 <= at < Size(s) && Flat(s') == Flat(s)[at := v]
    ensures |Left(c)| + at < |Whole(c, s)| && Whole(c, s') == Whole(c, s)[|Left(c)| + at := v]
  {
  }

  lemma WholeRemoved(c: Ctx, s: Shape, s': Shape, at: int)
    requires CtxOK(c) && 0 <= at < Size(s) && Flat(s') == Without(Flat(s), at)
    ensures |Left(c)| + at < |Whole(c, s)| && Whole(c, s') == Without(Whole(c, s), |Left(c)| + at)
  {
    RemoveInside(Left(c), Flat(s), Right(c), at);
  }

  lemma RemoveInside(l: seq<Ptr>, f: seq<Ptr>, r: seq<Ptr>, at: int)
    requires 0 <= at < |f|
    ensures Without(l + f + r, |l| + at) == l + Without(f, at) + r
  {
    var q, g := l + f + r, |l| + at;
    assert q[..g] == l + f[..at];
    assert q[g + 1..] == f[at + 1..] + r;
  }

  /** Case 1 on a leaf with an element to spare, and the counts above it. */
  method Case1(n: Node, ei: nat, ghost c: Ctx, ghost s: Shape) returns (ghost s': Shape, ghost h': nat)
    requires At(c, s, 1, 0) && s.Nd? && s.ref == n && |s.elems| >= 2 && ei < |s.elems| && Slot(s, ei)
    modifies CtxRefs(c), Refs(s)
    ensures CtxOK(c) && 0 <= Place(c, s, ei) < |Whole(c, s)|
    ensures Good(s', h') && s'.Nd? && s'.ref.parent == null && s'.ref == TopRef(c, n)
    ensures Flat(s') == Without(Whole(c, s), Place(c, s, ei)) && Refs(s') == CtxRefs(c) + Refs(s)
  {
    hide Good, Rep, RepL, Refs, RefsL, Distinct, DistinctL, WF, Flat, FlatL, Fields, Before;
    hide At, RepCtx, CtxRefs, WFCtx, DistinctCtx, Whole, Left;
    AtParts(c, s, 1, 0);
    LeafWithoutIs(s, ei);
    PlaceIs(c, s, ei);
    ghost var s1 := LeafWithout(s, ei);
    WholeRemoved(c, s, s1, ei);
    assert allocated(Refs(s)) && allocated(CtxRefs(c));
    DropFromLeaf(n, ei, s);
    AtAgain(c, s1, 1, 1);
    s', h' := DiscountUpwards(n, c, s1, 1);
  }

  /** Case 2a: the predecessor takes the place of the element and is removed instead. */
  method Case2a(t: Tree234, n: Node, ei: nat, ghost c: Ctx, ghost s: Shape, ghost h: nat)
    returns (m: Node, index: int, ghost c': Ctx, ghost s': Shape)
    requires Here(t, n, c, s, h) && h >= 2 && ei < |s.elems| && Slot(s, ei) && NodeLike(s.kids[ei])
      && |s.kids[ei].elems| >= 2
    modifies n`elems
    ensures Here(t, m, c', s', h - 1) && 0 <= index < Size(s')
    ensures CtxOK(c) && CtxOK(c') && CtxRefs(c') + Refs(s') == CtxRefs(c) + Refs(s)
    ensures var g := Place(c, s, ei);
      && 0 < g < |Whole(c, s)| && |Left(c')| + index == g - 1
      && Whole(c', s') == Whole(c, s)[g := Whole(c, s)[g - 1]]
  {
    hide Good, Rep, RepL, Refs, RefsL, Distinct, DistinctL, WF, Flat, FlatL, Fields, Before;
    hide At, RepCtx, CtxRefs, WFCtx, DistinctCtx, Whole;
    AtParts(c, s, h, 0);
    KidFacts(s, h, ei);
    PlaceIs(c, s, ei);
    assert allocated(Refs(s)) && allocated(CtxRefs(c));
    IsGood(s.kids[ei], h - 1);
    ghost var k := s.kids[ei];
    var target := LastElem(n.kids[ei], k, h - 1);
    OverwrittenIs(s, h, ei, target);
    Overwrite(n, ei, target, s, h);
    ghost var s1 := Overwritten(s, ei, target);
    WholeUpdated(c, s, s1, |Before(s, ei)| + Size(k), target);
    index := n.counts[ei] - 1;
    m := n.kids[ei];
    AtAgain(c, s1, h, 0);
    Down(c, s1, h, ei);
    WholeDown(c, s1, ei);
    c', s' := In(c, s1, ei), k;
  }

  /** Case 2b: the successor takes the place of the element and is removed instead. */
  method Case2b(t: Tree234, n: Node, ei: nat, ghost c: Ctx, ghost s: Shape, ghost h: nat)
    returns (m: Node, index: int, ghost c': Ctx, ghost s': Shape)
    requires Here(t, n, c, s, h) && h >= 2 && ei < |s.elems| && Slot(s, ei)
    requires NodeLike(s.kids[ei + 1]) && |s.kids[ei + 1].elems| >= 2
    modifies n`elems
    ensures Here(t, m, c', s', h - 1) && 0 <= index < Size(s')
    ensures CtxOK(c) && CtxOK(c') && CtxRefs(c') + Refs(s') == CtxRefs(c) + Refs(s)
    ensures var g := Place(c, s, ei);
      && 0 <= g < |Whole(c, s)| - 1 && |Left(c')| + index == g + 1
      && Whole(c', s') == Whole(c, s)[g := Whole(c, s)[g + 1]]
  {
    hide Good, Rep, RepL, Refs, RefsL, Distinct, DistinctL, WF, Flat, FlatL, Fields, Before;
    hide At, RepCtx, CtxRefs, WFCtx, DistinctCtx, Whole;
    AtParts(c, s, h, 0);
    KidFacts(s, h, ei + 1);
    PlaceIs(c, s, ei);
    assert allocated(Refs(s)) && allocated(CtxRefs(c));
    IsGood(s.kids[ei + 1], h - 1);
    ghost var k := s.kids[ei + 1];
    var target := FirstElem(n.kids[ei + 1], k, h - 1);
    OverwrittenIs(s, h, ei, target);
    Overwrite(n, ei, target, s, h);
    ghost var s1 := Overwritten(s, ei, target);
    WholeUpdated(c, s, s1, |Before(s, ei)| + Size(s.kids[ei]), target);
    m := n.kids[ei + 1];
    index := 0;
    AtAgain(c, s1, h, 0);
    Down(c, s1, h, ei + 1);
    WholeDown(c, s1, ei + 1);
    c', s' := In(c, s1, ei + 1), k;
  }

  lemma CountsAre(s: Shape, h: nat)
    requires Good(s, h) && h >= 1
    ensures |s.ref.counts| == 4 && |s.kids| >= 2
    ensures s.ref.counts[0] == Size(s.kids[0]) && s.ref.counts[1] == Size(s.kids[1])
    ensures Size(s) > Size(s.kids[0]) + Size(s.kids[1])
  {
    SizeIs(s);
  }

  /** Case 2c: both neighbours are small, so they melt around the element; the root may go. */
  method Case2cStep(t: Tree234, n: Node, ei: nat, ghost c: Ctx, ghost s: Shape, ghost h: nat)
    returns (a: Node, index: int, ghost c': Ctx, ghost s': Shape)
    requires Here(t, n, c, s, h) && h >= 2 && ei < |s.elems| && Slot(s, ei)
    requires NodeLike(s.kids[ei]) && |s.kids[ei].elems| == 1
    requires NodeLike(s.kids[ei + 1]) && |s.kids[ei + 1].elems| == 1
    modifies t`root, Refs(s)
    ensures Here(t, a, c', s', h - 1) && 0 <= index < Size(s')
    ensures CtxOK(c) && CtxOK(c') && CtxRefs(c') + Refs(s') <= CtxRefs(c) + Refs(s)
    ensures Whole(c', s') == Whole(c, s) && |Left(c')| + index == Place(c, s, ei)
  {
    hide Good, Rep, RepL, Refs, RefsL, Distinct, DistinctL, WF, Flat, FlatL, Fields, Before, Merged;
    hide At, RepCtx, CtxRefs, WFCtx, DistinctCtx;
    AtParts(c, s, h, 0);
    KidFacts(s, h, ei);
    SizeIs(s.kids[ei]);
    assert allocated(Refs(s)) && allocated(CtxRefs(c));
    a := n.kids[ei];
    ghost var m, s1 := Case2c(n, ei, s, h);
    MergedIs(s, h, ei, m, s1);
    CountsAre(m, h - 1);
    if n.elems[0] == NULL {
      IsGood(m, h - 1);
      t.root := a;
      a.parent := null;
      c', s' := Top, m;
      RootIs(s', h - 1);
      SlotZero(s1);
    } else {
      AtAgain(c, s1, h, 0);
      Down(c, s1, h, ei);
      WholeDown(c, s1, ei);
      c', s' := In(c, s1, ei), m;
    }
    index := a.counts[0] + a.counts[1] + 1;
  }

  // ---------- the deletion ----------

  /** What is to be read off the fields of the node found. */
  lemma FoundFacts(t: Tree234, n: Node, c: Ctx, s: Shape, h: nat, ei: nat)
    requires Here(t, n, c, s, h) && ei < |s.elems|
    ensures h >= 1 && s.Nd? && s.ref == n && t.root == TopRef(c, n)
    ensures NodeLike(s) && CtxOK(c) && Slot(s, ei) && |n.kids| == 4 && |n.elems| == 3 && n in Refs(s) && At(c, s, h, 0)
    ensures n.elems[ei] == s.elems[ei] != NULL && (n.elems[1] == NULL <==> |s.elems| == 1)
    ensures (n.kids[0] == null <==> h == 1) && (n.parent != null ==> |s.elems| >= 2)
    ensures h >= 2 ==> forall j :: 0 <= j < |s.kids| ==>
      NodeLike(s.kids[j]) && n.kids[j] == s.kids[j].ref && |s.kids[j].ref.elems| == 3
      && (s.kids[j].ref.elems[1] == NULL <==> |s.kids[j].elems| == 1)
    ensures n.parent == null && h == 1 && |s.elems| == 1 ==> Whole(c, s) == [s.elems[0]] && Place(c, s, ei) == 0
  {
    if h >= 2 {
      forall j | 0 <= j < |s.kids|
        ensures NodeLike(s.kids[j]) && s.ref.kids[j] == s.kids[j].ref && |s.kids[j].ref.elems| == 3
          && (s.kids[j].ref.elems[1] == NULL <==> |s.kids[j].elems| == 1)
      {
        KidFacts(s, h, j);
      }
    } else if |s.elems| == 1 {
      LeafFlat(s.kids, s.elems);
      SlotZero(s);
    }
  }

  lemma Start(t: Tree234)
    requires t.Valid() && t.Contents() != []
    ensures t.root != null && t.height >= 1 && Here(t, t.root, Top, t.shape, t.height) && CtxRefs(Top) == {}
    ensures Whole(Top, t.shape) == t.Contents() && Left(Top) == [] && Size(t.shape) == |t.Contents()|
      && t.Repr() == Refs(t.shape)
    ensures forall i :: 0 <= i < |t.Contents()| ==> t.Contents()[i] != NULL
  {
    RootIs(t.shape, t.height);
    forall i | 0 <= i < |t.Contents()| ensures t.Contents()[i] != NULL {
      NonNull(t.shape, t.height, i);
    }
  }

  lemma EmptyIs()
    ensures Good(Nil, 0) && Size(Nil) == 0 && Flat(Nil) == [] && Refs(Nil) == {}
  {
  }

  /** Case 2: what is to be removed is now sought one level down, in the same list but for the element itself. */
  method Case2(t: Tree234, n: Node, ei: nat, ghost c: Ctx, ghost s: Shape, ghost h: nat)
    returns (m: Node, index: int, ghost c': Ctx, ghost s': Shape)
    requires Here(t, n, c, s, h) && h >= 2 && ei < |s.elems| && Slot(s, ei)
    modifies t`root, Refs(s)
    ensures Here(t, m, c', s', h - 1) && 0 <= index < Size(s')
    ensures CtxOK(c) && CtxOK(c') && CtxRefs(c') + Refs(s') <= CtxRefs(c) + Refs(s)
    ensures var g, g' := Place(c, s, ei), |Left(c')| + index;
      && 0 <= g < |Whole(c, s)| && 0 <= g' < |Whole(c', s')|
      && Without(Whole(c', s'), g') == Without(Whole(c, s), g)
  {
    hide Good, Rep, RepL, Refs, RefsL, Distinct, DistinctL, WF, Flat, FlatL, Fields, Before;
    hide At, RepCtx, CtxRefs, WFCtx, DistinctCtx, Whole, Left, Here, TopRef, Size, Place;
    FoundFacts(t, n, c, s, h, ei);
    PlaceIs(c, s, ei);
    RemoveShifted(Whole(c, s), Place(c, s, ei));
    assert allocated(Refs(s)) && allocated(CtxRefs(c));
    if n.kids[ei].elems[1] != NULL {
      m, index, c', s' := Case2a(t, n, ei, c, s, h);
    } else if n.kids[ei + 1].elems[1] != NULL {
      m, index, c', s' := Case2b(t, n, ei, c, s, h);
    } else {
      m, index, c', s' := Case2cStep(t, n, ei, c, s, h);
    }
  }

  method DelPos234Internal(t: Tree234, index0: int) returns (retval: Ptr)
    requires t.Valid() && 0 <= index0 < |t.Contents()|
    modifies t, t.Repr()
    ensures retval == old(t.Contents()[index0]) && retval != NULL
    ensures Good(t.shape, t.height) && t.root == RefOf(t.shape) && (t.root != null ==> t.root.parent == null)
    ensures t.Contents() == Without(old(t.Contents()), index0)
    ensures t.Repr() <= old(t.Repr())
  {
    hide Good, Rep, RepL, Refs, RefsL, Distinct, DistinctL, WF, Flat, FlatL, Fields, Before;
    hide At, RepCtx, CtxRefs, WFCtx, DistinctCtx, Whole, Left, Here, TopRef, Size;
    ghost var q0, R := t.Contents(), t.Repr();
    Start(t);
    var n, index := t.root, index0;
    retval := NULL;
    ghost var c, s, h := Top, t.shape, t.height;
    assert allocated(R);
    while true
      invariant n != null && Here(t, n, c, s, h) && CtxOK(c) && 0 <= index < Size(s)
      invariant CtxRefs(c) + Refs(s) <= R
      invariant 0 <= |Left(c)| + index < |Whole(c, s)|
      invariant Without(Whole(c, s), |Left(c)| + index) == Without(q0, index0)
      invariant if retval == NULL then Whole(c, s)[|Left(c)| + index] == q0[index0] else retval == q0[index0]
      decreases h
    {
      var ei;
      n, ei, c, s, h := Seek(t, n, index, c, s, h);
      FoundFacts(t, n, c, s, h, ei);
      PlaceIs(c, s, ei);
      if retval == NULL { retval := n.elems[ei]; }
      if n.parent == null && n.elems[1] == NULL && n.kids[0] == null {
        t.root := null;
        t.shape, t.height := Nil, 0;
        EmptyIs();
        return;
      }
      if n.kids[0] == null && n.elems[1] != NULL {
        ghost var s', h' := Case1(n, ei, c, s);
        t.shape, t.height := s', h';
        return;
      }
      n, index, c, s := Case2(t, n, ei, c, s, h);
      h := h - 1;
    }
  }

  lemma SortedRemove(cmp: Cmp, q: seq<Ptr>, i: int)
    requires Sorted(cmp, q) && 0 <= i < |q|
    ensures Sorted(cmp, Without(q, i))
  {
    var r := Without(q, i);
    forall j, k | 0 <= j < k < |r| ensures cmp(r[j], r[k]) < 0 {
      assert r[j] == q[if j < i then j else j + 1] && r[k] == q[if k < i then k else k + 1];
    }
  }

  /** delpos234: removes and returns the element at an index. */
  method DelPos234(t: Tree234, index: int) returns (ret: Ptr)
    requires t.Valid()
    modifies if 0 <= index < |t.Contents()| then {t} else {}
    modifies if 0 <= index < |t.Contents()| then t.Repr() else {}
    ensures t.Valid() && t.Repr() <= old(t.Repr())
    ensures var q := old(t.Contents());
      if 0 <= index < |q| then ret == q[index] && ret != NULL && t.Contents() == Without(q, index)
      else ret == NULL && t.Contents() == q
  {
    assert allocated(t.Repr());
    var count := Count234(t);
    if index < 0 || index >= count { return NULL; }
    if t.cmp.Some? { SortedRemove(t.cmp.value, t.Contents(), index); }
    ret := DelPos234Internal(t, index);
  }

  ghost predicate HasEqual(t: Tree234, e: Ptr)
    requires t.cmp.Some?
    reads t
  {
    exists i :: 0 <= i < |t.Contents()| && t.cmp.value(e, t.Contents()[i]) == 0
  }

  /** del234: removes and returns the element that compares equal to `e`. */
  method Del234(t: Tree234, e: Ptr) returns (ret: Ptr)
    requires t.Valid() && t.cmp.Some? && e != NULL
    modifies if HasEqual(t, e) then {t} else {}
    modifies if HasEqual(t, e) then t.Repr() else {}
    ensures t.Valid() && t.Repr() <= old(t.Repr())
    ensures var q, cmp := old(t.Contents()), t.cmp.value;
      if old(HasEqual(t, e))
      then exists i :: 0 <= i < |q| && cmp(e, q[i]) == 0 && ret == q[i] && t.Contents() == Without(q, i)
      else ret == NULL && t.Contents() == q
  {
    ghost var q := t.Contents();
    SortedIsMonotone(e, t.cmp, EQ, q);
    assert allocated(t.Repr());
    var index;
    ret, index := FindRelPos234(t, e, None, EQ);
    if ret == NULL { return NULL; }
    assert t.cmp.value(e, q[index.value]) == 0;
    SortedRemove(t.cmp.value, t.Contents(), index.value);
    ret := DelPos234Internal(t, index.value);
  }
}
