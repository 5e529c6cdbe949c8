/** How the node objects in memory represent a shape, places in a tree, and the walks along them. */
module Tree234Nodes {
  import opened Tree234Shapes

  // ---------- representation ----------

  /** The field values `K`, `C` and `E` are those of `s`, except that slot `hole` (if it is one)
      holds the kid pointer `r` and the count `c`. */
  ghost predicate Fields(s: Shape, hole: int, r: Node?, c: int, K: seq<Node?>, C: seq<int>, E: seq<Ptr>)
    requires s.Nd?
  {
    && |K| == 4 && |C| == 4 && |E| == 3
    && (forall i {:trigger K[i]} :: 0 <= i < 4 ==>
      K[i] == if i == hole then r else if i < |s.kids| then RefOf(s.kids[i]) else null)
    && (forall i {:trigger C[i]} :: 0 <= i < 4 ==>
      C[i] == if i == hole then c else if i < |s.kids| then Size(s.kids[i]) else 0)
    && (forall i {:trigger E[i]} :: 0 <= i < 3 ==> E[i] == if i < |s.elems| then s.elems[i] else NULL)
  }

  ghost predicate Local(s: Shape, hole: int, r: Node?, c: int)
    requires s.Nd?
    reads s.ref`kids, s.ref`counts, s.ref`elems
  {
    Fields(s, hole, r, c, s.ref.kids, s.ref.counts, s.ref.elems)
  }

  /** The node objects at and below `s.ref` represent `s`; the parent field of `s.ref` is free. */
  ghost predicate Rep(s: Shape)
    reads Refs(s)`kids, Refs(s)`counts, Refs(s)`elems
    reads (if s.Nil? then {} else RefsL(s.kids))`parent
    decreases s, 1
  {
    match s
    case Nil => true
    case Nd(r, ks, es) => Local(s, -1, null, 0) && RepL(ks, r)
  }

  ghost predicate RepL(ks: seq<Shape>, p: Node)
    reads RefsL(ks)`kids, RefsL(ks)`counts, RefsL(ks)`elems, RefsL(ks)`parent
    decreases ks, 0
  {
    ks == [] || ((ks[0].Nd? ==> ks[0].ref.parent == p) && Rep(ks[0]) && RepL(ks[1..], p))
  }

  lemma {:induction false} RepConcat(ks1: seq<Shape>, ks2: seq<Shape>, p: Node)
    ensures RepL(ks1 + ks2, p) <==> RepL(ks1, p) && RepL(ks2, p)
  {
    if ks1 == [] {
      assert ks1 + ks2 == ks2;
    } else {
      assert (ks1 + ks2)[1..] == ks1[1..] + ks2;
      RepConcat(ks1[1..], ks2, p);
    }
  }

  lemma RepAt(ks: seq<Shape>, p: Node, i: nat)
    requires i < |ks|
    ensures RepL(ks, p) <==>
      && RepL(ks[..i], p) && RepL(ks[i + 1..], p)
      && Rep(ks[i]) && (ks[i].Nd? ==> ks[i].ref.parent == p)
  {
    assert ks == ks[..i] + ks[i..];
    RepConcat(ks[..i], ks[i..], p);
    assert ks[i..][1..] == ks[i + 1..];
  }

  lemma RepAt2(ks: seq<Shape>, p: Node, i: nat)
    requires i + 1 < |ks|
    ensures RepL(ks, p) <==>
      && RepL(ks[..i], p) && RepL(ks[i + 2..], p)
      && Rep(ks[i]) && (ks[i].Nd? ==> ks[i].ref.parent == p)
      && Rep(ks[i + 1]) && (ks[i + 1].Nd? ==> ks[i + 1].ref.parent == p)
  {
    RepAt(ks, p, i);
    assert ks[i + 1..][1..] == ks[i + 2..];
  }

  ghost predicate Good(s: Shape, h: nat)
    reads Refs(s)`kids, Refs(s)`counts, Refs(s)`elems
    reads (if s.Nil? then {} else RefsL(s.kids))`parent
  {
    WF(s, h) && Distinct(s) && Rep(s)
  }

  lemma GoodKid(s: Shape, h: nat, i: nat)
    requires Good(s, h) && h >= 1 && i < |s.kids|
    ensures Good(s.kids[i], h - 1) && (s.kids[i].Nd? ==> s.kids[i].ref.parent == s.ref)
    ensures Refs(s.kids[i]) <= RefsL(s.kids) <= Refs(s)
  {
    DistinctAt(s.kids, i);
    RepAt(s.kids, s.ref, i);
  }

  // ---------- counting ----------

  function Present(e: Ptr): int { if e == NULL then 0 else 1 }

  ghost function CountOf(n: Node): int
    requires |n.counts| == 4 && |n.elems| == 3
    reads n`counts, n`elems
  {
    n.counts[0] + n.counts[1] + n.counts[2] + n.counts[3]
    + Present(n.elems[0]) + Present(n.elems[1]) + Present(n.elems[2])
  }

  lemma SizeL(ks: seq<Shape>, es: seq<Ptr>)
    requires |ks| == |es| + 1 > 1
    ensures |FlatL(ks, es)| == Size(ks[0]) + 1 + |FlatL(ks[1..], es[1..])|
    ensures |es| == 1 ==> FlatL(ks[1..], es[1..]) == Flat(ks[1])
  {
  }

  lemma SizeIs(s: Shape)
    requires NodeLike(s)
    ensures Size(s) == |s.elems| + Size(s.kids[0]) + Size(s.kids[1])
      + (if |s.kids| > 2 then Size(s.kids[2]) else 0) + (if |s.kids| > 3 then Size(s.kids[3]) else 0)
  {
    SizeL(s.kids, s.elems);
    if |s.kids| > 2 {
      SizeL(s.kids[1..], s.elems[1..]);
      if |s.kids| > 3 {
        assert s.kids[1..][1..] == s.kids[2..] && s.elems[1..][1..] == s.elems[2..];
        SizeL(s.kids[2..], s.elems[2..]);
        assert s.kids[2..][1..] == s.kids[3..];
      }
    }
  }

  /** A node's own count is the size of what it represents. */
  lemma CountIs(s: Shape)
    requires NodeLike(s) && Local(s, -1, null, 0)
    ensures CountOf(s.ref) == Size(s)
  {
    SizeIs(s);
  }

  method CountNode234(n: Node?) returns (count: int)
    requires n != null ==> |n.counts| == 4 && |n.elems| == 3
    ensures count == if n == null then 0 else CountOf(n)
  {
    count := 0;
    if n == null { return; }
    for i := 0 to 4
      invariant count == (if i > 0 then n.counts[0] else 0) + (if i > 1 then n.counts[1] else 0)
        + (if i > 2 then n.counts[2] else 0) + (if i > 3 then n.counts[3] else 0)
    {
      count := count + n.counts[i];
    }
    ghost var sum := count;
    for i := 0 to 3
      invariant count == sum + (if i > 0 then Present(n.elems[0]) else 0)
        + (if i > 1 then Present(n.elems[1]) else 0) + (if i > 2 then Present(n.elems[2]) else 0)
    {
      if n.elems[i] != NULL { count := count + 1; }
    }
  }

  // ---------- places ----------

  /** The nodes around a place are in memory; the place itself holds pointer `r` and count `count`. */
  ghost predicate RepCtx(c: Ctx, r: Node?, count: int)
    requires CtxOK(c)
    reads CtxRefs(c)
  {
    c.In? ==>
      && Local(c.nd, c.i, r, count)
      && RepL(c.nd.kids[..c.i], c.nd.ref) && RepL(c.nd.kids[c.i + 1..], c.nd.ref)
      && c.nd.ref.parent == CtxRef(c.up)
      && RepCtx(c.up, c.nd.ref, |Before(c.nd, c.i)| + count + |After(c.nd, c.i)|)
  }

  /** The subtree `s` of height `h` stands in the place `c`; the counts above it are
      `delta` too high. */
  ghost predicate At(c: Ctx, s: Shape, h: nat, delta: int)
    reads if CtxOK(c) then CtxRefs(c) else {}, Refs(s)
  {
    && WFCtx(c, h) && DistinctCtx(c) && Good(s, h) && CtxRefs(c) !! Refs(s)
    && RepCtx(c, RefOf(s), Size(s) + delta)
    && (s.Nd? ==> s.ref.parent == CtxRef(c))
  }

  /** Going down to kid `i`. */
  lemma Down(c: Ctx, s: Shape, h: nat, i: nat)
    requires h >= 1 && At(c, s, h, 0) && Slot(s, i)
    ensures At(In(c, s, i), s.kids[i], h - 1, 0)
    ensures CtxRefs(In(c, s, i)) + Refs(s.kids[i]) == CtxRefs(c) + Refs(s)
  {
    DownApart(c, s, i);
    RepAt(s.kids, s.ref, i);
    FlatAt(s, i);
    assert RepCtx(In(c, s, i), RefOf(s.kids[i]), Size(s.kids[i]));
  }

  /** Going up: once the count beside it is right, a subtree and the node above it are a subtree. */
  lemma Up(c: Ctx, s: Shape, h: nat, delta: int)
    requires c.In? && WFCtx(c, h) && DistinctCtx(c) && Good(s, h) && CtxRefs(c) !! Refs(s)
    requires s.Nd? ==> s.ref.parent == CtxRef(c)
    requires Local(c.nd, c.i, RefOf(s), Size(s))
    requires RepL(c.nd.kids[..c.i], c.nd.ref) && RepL(c.nd.kids[c.i + 1..], c.nd.ref)
    requires c.nd.ref.parent == CtxRef(c.up)
    requires RepCtx(c.up, c.nd.ref, |Before(c.nd, c.i)| + Size(s) + delta + |After(c.nd, c.i)|)
    ensures var nd := Fill(c.nd, c.i, s);
      && At(c.up, nd, h + 1, delta)
      && CtxRefs(c.up) + Refs(nd) == CtxRefs(c) + Refs(s)
  {
    hide Flat, FlatL, Before, After;
    var nd := Fill(c.nd, c.i, s);
    FillSame(c.nd, c.i, s);
    FlatAt(nd, c.i);
    UpApart(c, s);
    FillRep(c.nd, c.i, s);
  }

  lemma FillRep(nd: Shape, i: nat, s: Shape)
    requires Slot(nd, i) && Rep(s) && (s.Nd? ==> s.ref.parent == nd.ref) && Local(nd, i, RefOf(s), Size(s))
    requires RepL(nd.kids[..i], nd.ref) && RepL(nd.kids[i + 1..], nd.ref)
    ensures Rep(Fill(nd, i, s))
  {
    hide Flat, FlatL;
    var filled := Fill(nd, i, s);
    assert filled.kids[..i] == nd.kids[..i] && filled.kids[i + 1..] == nd.kids[i + 1..] && filled.kids[i] == s;
    RepAt(filled.kids, nd.ref, i);
  }

  /** The root is where the parent pointers end. */
  lemma Edge(c: Ctx, s: Shape, h: nat, delta: int)
    requires At(c, s, h, delta) && s.Nd?
    ensures c.In? <==> s.ref.parent != null
    ensures c.Top? ==> Good(s, h) && Whole(c, s) == Flat(s) && CtxRefs(c) == {} && TopRef(c, s.ref) == s.ref
  {
  }

  lemma {:induction false} KidRef(ks: seq<Shape>, j: nat)
    requires j < |ks| && ks[j].Nd?
    ensures ks[j].ref in RefsL(ks)
  {
    DistinctAt(ks, j);
  }

  /** Which kid of `p` the node `n` is. */
  function ChildNumber(p: Node, n: Node): nat
    requires |p.kids| == 4
    reads p`kids
  {
    if p.kids[0] == n then 0 else if p.kids[1] == n then 1 else if p.kids[2] == n then 2 else 3
  }

  /** The search for a child among its parent's kid pointers finds the place it stands in. */
  lemma ChildNumberIs(c: Ctx, s: Shape, h: nat, delta: int)
    requires At(c, s, h, delta) && s.Nd? && s.ref.parent != null
    ensures c.In? && c.nd.ref == s.ref.parent && Local(c.nd, c.i, s.ref, Size(s) + delta)
    ensures ChildNumber(c.nd.ref, s.ref) == c.i && NodeLike(s)
  {
    var ks := c.nd.kids;
    forall j | 0 <= j < |ks| && j != c.i && ks[j].Nd? ensures ks[j].ref != s.ref {
      if j < c.i {
        KidRef(ks[..c.i], j);
      } else {
        KidRef(ks[c.i + 1..], j - c.i - 1);
      }
    }
  }

  /** Writes the right count beside `n` in the node above it and steps up to that node. */
  method SetCount(n: Node, childnum: nat, count: int, ghost c: Ctx, ghost s: Shape, ghost h: nat, ghost delta: int)
    returns (p: Node, ghost s': Shape)
    requires At(c, s, h, delta) && s.Nd? && s.ref == n && c.In?
    requires childnum == c.i && count == Size(s)
    modifies {c.nd.ref}`counts
    ensures s'.Nd? && s'.ref == p && At(c.up, s', h + 1, delta) && TopRef(c.up, p) == TopRef(c, n)
    ensures Whole(c.up, s') == Whole(c, s) && CtxRefs(c.up) + Refs(s') == CtxRefs(c) + Refs(s)
  {
    p := n.parent;
    p.counts := p.counts[childnum := count];
    assert Local(c.nd, c.i, n, count);
    Up(c, s, h, delta);
    WholeUp(c, s);
    s' := Fill(c.nd, c.i, s);
  }

  /** One step of the walk to the root after an insertion: recompute the count. */
  method RecountStep(n: Node, ghost c: Ctx, ghost s: Shape, ghost h: nat, ghost delta: int)
    returns (p: Node, ghost s': Shape)
    requires At(c, s, h, delta) && s.Nd? && s.ref == n && c.In?
    modifies {c.nd.ref}`counts
    ensures s'.Nd? && s'.ref == p && At(c.up, s', h + 1, delta) && TopRef(c.up, p) == TopRef(c, n)
    ensures Whole(c.up, s') == Whole(c, s) && CtxRefs(c.up) + Refs(s') == CtxRefs(c) + Refs(s)
  {
    ChildNumberIs(c, s, h, delta);
    CountIs(s);
    assert allocated(Refs(s)) && allocated(CtxRefs(c));
    var count := CountNode234(n);
    assert At(c, s, h, delta);
    p, s' := SetCount(n, ChildNumber(n.parent, n), count, c, s, h, delta);
  }

  /** One step of the walk to the root after a deletion: lower the count by one. */
  method DiscountStep(n: Node, ghost c: Ctx, ghost s: Shape, ghost h: nat) returns (p: Node, ghost s': Shape)
    requires At(c, s, h, 1) && s.Nd? && s.ref == n && c.In?
    modifies {c.nd.ref}`counts
    ensures s'.Nd? && s'.ref == p && At(c.up, s', h + 1, 1) && TopRef(c.up, p) == TopRef(c, n)
    ensures Whole(c.up, s') == Whole(c, s) && CtxRefs(c.up) + Refs(s') == CtxRefs(c) + Refs(s)
  {
    ChildNumberIs(c, s, h, 1);
    var childnum := ChildNumber(n.parent, n);
    p, s' := SetCount(n, childnum, n.parent.counts[childnum] - 1, c, s, h, 1);
  }

  /** After an insertion: recompute every count on the way to the root.
      At the root there is nothing to recompute, whatever hangs below it. */
  method RecountUpwards(n0: Node, ghost c0: Ctx, ghost s0: Shape, ghost h0: nat, ghost delta: int)
    returns (ghost s: Shape, ghost h: nat)
    requires s0.Nd? && s0.ref == n0 && CtxOK(c0) && (At(c0, s0, h0, delta) || (c0.Top? && n0.parent == null))
    modifies CtxRefs(c0)`counts
    ensures old(At(c0, s0, h0, delta)) ==>
      && Good(s, h) && s.Nd? && s.ref.parent == null && s.ref == TopRef(c0, n0)
      && Flat(s) == Whole(c0, s0) && Refs(s) == CtxRefs(c0) + Refs(s0)
    ensures c0.Top? ==> s == s0
  {
    hide WFCtx, DistinctCtx, RepCtx, Whole, Rep, RepL, Good, TopRef;
    var n := n0;
    ghost var c := c0;
    s, h := s0, h0;
    ghost var placed := At(c, s, h, delta);
    if placed {
      Edge(c, s, h, delta);
    }
    while n.parent != null
      invariant !placed ==> n == n0 && n.parent == null
      invariant c0.Top? ==> s == s0 && c == c0
      invariant placed ==>
        && At(c, s, h, delta) && s.Nd? && s.ref == n && TopRef(c, n) == TopRef(c0, n0)
        && CtxRefs(c) + Refs(s) == CtxRefs(c0) + Refs(s0) && CtxRefs(c) <= CtxRefs(c0)
        && Whole(c, s) == Whole(c0, s0)
        && (c.In? <==> n.parent != null)
        && (c.Top? ==> Good(s, h) && Whole(c, s) == Flat(s) && CtxRefs(c) == {} && TopRef(c, n) == n)
      decreases c
    {
      n, s := RecountStep(n, c, s, h, delta);
      c, h := c.up, h + 1;
      Edge(c, s, h, delta);
    }
  }

  /** After a deletion: lower every count on the way to the root by one. */
  method DiscountUpwards(n0: Node, ghost c0: Ctx, ghost s0: Shape, ghost h0: nat)
    returns (ghost s: Shape, ghost h: nat)
    requires At(c0, s0, h0, 1) && s0.Nd? && s0.ref == n0
    modifies CtxRefs(c0)`counts
    ensures Good(s, h) && s.Nd? && s.ref.parent == null && s.ref == TopRef(c0, n0)
    ensures Flat(s) == Whole(c0, s0) && Refs(s) == CtxRefs(c0) + Refs(s0)
  {
    hide WFCtx, DistinctCtx, RepCtx, Whole, Rep, RepL, Good, TopRef;
    var n := n0;
    ghost var c := c0;
    s, h := s0, h0;
    Edge(c, s, h, 1);
    while n.parent != null
      invariant At(c, s, h, 1) && s.Nd? && s.ref == n && TopRef(c, n) == TopRef(c0, n0)
      invariant CtxRefs(c) + Refs(s) == CtxRefs(c0) + Refs(s0) && CtxRefs(c) <= CtxRefs(c0)
      invariant Whole(c, s) == Whole(c0, s0)
      invariant c.In? <==> n.parent != null
      invariant c.Top? ==> Good(s, h) && Whole(c, s) == Flat(s) && CtxRefs(c) == {} && TopRef(c, n) == n
      decreases c
    {
      n, s := DiscountStep(n, c, s, h);
      c, h := c.up, h + 1;
      Edge(c, s, h, 1);
    }
  }
}
