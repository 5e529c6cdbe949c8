/** add234 and addpos234: a descent to a place below the leaves, then splits on the way up. */
module Tree234Insert {
  import opened Wrappers
  import opened Tree234Shapes
  import opened Tree234Nodes
  import opened Tree234Pairs
  import opened Tree234Cases
  import opened Tree234Widen
  import opened Tree234Base
  import opened Tree234Search
  import opened Tree234Delete

  // ---------- the climb ----------

  /** In place `c`, where there was the pointer `r` with count `count`, there shall be the subtrees
      `l` and `r'` with the element `e` between them. */
  ghost predicate Offered(c: Ctx, h: nat, r: Node?, count: int, l: Shape, e: Ptr, r': Shape)
    reads if CtxOK(c) then CtxRefs(c) else {}, Refs(l), Refs(r')
  {
    && WFCtx(c, h) && DistinctCtx(c) && RepCtx(c, r, count)
    && Distinct(l) && Rep(l) && Distinct(r') && Rep(r') && e != NULL
    && CtxRefs(c) !! Refs(l) !! Refs(r')
  }

  /** ... and both have the height of the place. */
  ghost predicate Pending(c: Ctx, h: nat, r: Node?, count: int, l: Shape, e: Ptr, r': Shape)
    reads if CtxOK(c) then CtxRefs(c) else {}, Refs(l), Refs(r')
  {
    Offered(c, h, r, count, l, e, r') && WF(l, h) && WF(r', h)
  }

  /** All elements, with the pending ones in place. */
  ghost function WholeWith(c: Ctx, l: Shape, e: Ptr, r: Shape): seq<Ptr>
    requires CtxOK(c)
  {
    Left(c) + (Flat(l) + [e] + Flat(r)) + Right(c)
  }

  lemma PendingIs(c: Ctx, h: nat, r: Node?, count: int, l: Shape, e: Ptr, r': Shape)
    ensures Pending(c, h, r, count, l, e, r') <==> Offered(c, h, r, count, l, e, r') && WF(l, h) && WF(r', h)
  {
  }

  lemma PendingElems(c: Ctx, h: nat, r: Node?, count: int)
    requires WFCtx(c, h) && RepCtx(c, r, count) && c.In?
    ensures var nd, n := c.nd, c.nd.ref;
      |n.elems| == 3 && (n.elems[1] == NULL <==> |nd.elems| == 1) && (n.elems[2] == NULL <==> |nd.elems| <= 2)
  {
  }

  /** What the node above a pending place looks like. */
  lemma PendingParts(c: Ctx, h: nat, r: Node?, count: int, l: Shape, e: Ptr, r': Shape)
    requires Offered(c, h, r, count, l, e, r')
    ensures CtxOK(c) && e != NULL && CtxRefs(c) !! Refs(l) !! Refs(r') && Rep(l) && Rep(r')
    ensures l.Nd? ==> RefsL(l.kids) <= Refs(l)
    ensures r'.Nd? ==> RefsL(r'.kids) <= Refs(r')
    ensures c.In? ==>
      var nd, i := c.nd, c.i; var n := nd.ref; var w := Widened(nd, i, l, e, r');
      && NodeLike(nd) && Slot(nd, i) && Local(nd, i, r, count) && n.parent == CtxRef(c.up)
      && WFCtx(c.up, h + 1) && DistinctCtx(c.up) && CtxOK(c.up)
      && RepCtx(c.up, n, |Before(nd, i)| + count + |After(nd, i)|)
      && |n.elems| == 3 && (n.elems[1] == NULL <==> |nd.elems| == 1) && (n.elems[2] == NULL <==> |nd.elems| <= 2)
      && RepAll(w.kids) && DistinctL(w.kids) && n !in RefsL(w.kids) && Inner(w.kids) <= RefsL(w.kids)
      && CtxRefs(c.up) !! {n} + RefsL(w.kids) && n in CtxRefs(c) && CtxRefs(c.up) <= CtxRefs(c)
      && CtxRefs(c.up) + {n} + RefsL(w.kids) == CtxRefs(c) + Refs(l) + Refs(r')
      && |w.kids| == |nd.kids| + 1 == |w.elems| + 1 && (WF(l, h) && WF(r', h) && |nd.elems| <= 2 ==> WF(w, h + 1))
  {
    hide Flat, FlatL, Fields, Rep, RepL, RepAll, Distinct, DistinctL;
    if c.In? {
      PendingElems(c, h, r, count);
      PendingReps(c, h, r, count, l, e, r');
      DistinctWidened(c, l, r');
      if WF(l, h) && WF(r', h) {
        WidenedKids(c, h, l, e, r');
      }
      InnerIs(WideKids(c.nd, c.i, l, r'));
    }
  }

  lemma PendingReps(c: Ctx, h: nat, r: Node?, count: int, l: Shape, e: Ptr, r': Shape)
    requires Offered(c, h, r, count, l, e, r') && c.In?
    ensures CtxOK(c) && RepAll(WideKids(c.nd, c.i, l, r'))
  {
    hide Flat, FlatL, Distinct, DistinctL;
    var a, b := c.nd.kids[..c.i], c.nd.kids[c.i + 1..];
    RepAllIs(a, c.nd.ref);
    RepAllIs(b, c.nd.ref);
    assert [l, r'][1..] == [r'];
    assert RepAll([r']);
    assert RepAll([l, r']);
    RepAllConcat(a, [l, r']);
    RepAllConcat(a + [l, r'], b);
  }

  lemma WholeWidened(c: Ctx, l: Shape, e: Ptr, r: Shape)
    requires c.In? && CtxOK(c)
    ensures Whole(c.up, Widened(c.nd, c.i, l, e, r)) == WholeWith(c, l, e, r)
  {
    hide Flat, FlatL, Before, After, Widened;
    FlatWidened(c.nd, c.i, l, e, r);
    Regroup(Left(c.up), Before(c.nd, c.i), Flat(l) + [e] + Flat(r), After(c.nd, c.i), Right(c.up));
  }

  lemma Regroup(a: seq<Ptr>, b: seq<Ptr>, m: seq<Ptr>, c: seq<Ptr>, d: seq<Ptr>)
    ensures a + (b + m + c) + d == (a + b) + m + (c + d)
  {
  }

  /** The halves of a split node are subtrees with an element between them. */
  lemma HalvesGood(m: Node, w: Shape, h: nat)
    requires w.Nd? && |w.kids| == 5 && |w.elems| == 4
    requires (forall j :: 0 <= j < 5 ==> WF(w.kids[j], h)) && (forall j :: 0 <= j < 4 ==> w.elems[j] != NULL)
    requires DistinctL(w.kids) && RepAll(w.kids) && w.ref !in RefsL(w.kids) && m !in RefsL(w.kids) && m != w.ref
    ensures var a, b := LeftHalf(m, w), RightHalf(w);
      && WF(a, h + 1) && WF(b, h + 1) && Distinct(a) && Distinct(b) && Refs(a) !! Refs(b) && NodeLike(a) && NodeLike(b)
      && RepAll(a.kids) && RepAll(b.kids) && DistinctL(a.kids) && DistinctL(b.kids)
      && RefsL(w.kids) == RefsL(a.kids) + RefsL(b.kids) && RefsL(a.kids) !! RefsL(b.kids)
      && Refs(a) == {m} + RefsL(a.kids) && Refs(b) == {w.ref} + RefsL(b.kids)
      && Inner(a.kids) <= RefsL(a.kids) && Inner(b.kids) <= RefsL(b.kids)
      && Flat(a) + [w.elems[2]] + Flat(b) == Flat(w)
  {
    var a, b := LeftHalf(m, w), RightHalf(w);
    assert w.kids == a.kids + b.kids && w.elems == a.elems + [w.elems[2]] + b.elems;
    DistinctConcat(a.kids, b.kids);
    RepAllConcat(a.kids, b.kids);
    InnerIs(a.kids);
    InnerIs(b.kids);
    FlatConcat(a.kids, a.elems, w.elems[2], b.kids, b.elems);
  }

  lemma WholeSplit(c: Ctx, l: Shape, e: Ptr, r: Shape, m: Node)
    requires c.In? && CtxOK(c) && |c.nd.elems| == 3
    requires var w := Widened(c.nd, c.i, l, e, r); Flat(LeftHalf(m, w)) + [w.elems[2]] + Flat(RightHalf(w)) == Flat(w)
    ensures var w := Widened(c.nd, c.i, l, e, r);
      WholeWith(c.up, LeftHalf(m, w), w.elems[2], RightHalf(w)) == WholeWith(c, l, e, r)
  {
    hide Flat, FlatL, Before, After, Widened;
    FlatWidened(c.nd, c.i, l, e, r);
    Regroup(Left(c.up), Before(c.nd, c.i), Flat(l) + [e] + Flat(r), After(c.nd, c.i), Right(c.up));
  }

  /** Insertion into a 2- or 3-node ends the climb. */
  method InsertHere(n: Node, pos: nat, left: Node?, lcount: int, e: Ptr, right: Node?, rcount: int,
                    ghost c: Ctx, ghost h: nat, ghost r0: Node?, ghost c0: int, ghost l: Shape, ghost r: Shape)
    returns (ghost w: Shape, ghost delta: int)
    requires Offered(c, h, r0, c0, l, e, r) && c.In? && c.nd.Nd? && c.nd.ref == n && AtPlace(c.nd, c.i, pos)
    requires left == RefOf(l) && lcount == Size(l) && right == RefOf(r) && rcount == Size(r)
    requires |n.elems| == 3 && (n.elems[1] == NULL || n.elems[2] == NULL)
    modifies n`kids, n`counts, n`elems, CtxRefs(c)`parent, Refs(l)`parent, Refs(r)`parent
    ensures CtxOK(c) && w.Nd? && w.ref == n && w == Widened(c.nd, c.i, l, e, r) && Rep(w)
    ensures WF(l, h) && WF(r, h) ==> At(c.up, w, h + 1, delta)
    ensures Whole(c.up, w) == WholeWith(c, l, e, r) && n.parent == CtxRef(c.up)
    ensures CtxRefs(c.up) + Refs(w) == CtxRefs(c) + Refs(l) + Refs(r)
  {
    hide Good, Rep, RepL, Refs, RefsL, Distinct, DistinctL, WF, Flat, FlatL, Fields, Before, After, RepAll, Inner;
    hide Offered, At, RepCtx, CtxRefs, WFCtx, DistinctCtx, Whole, WholeWith, Widened, WideKids, WideElems;
    ghost var nd, i := c.nd, c.i;
    PendingParts(c, h, r0, c0, l, e, r);
    w := Widened(nd, i, l, e, r);
    WidenedNd(nd, i, l, e, r);
    assert allocated(CtxRefs(c)) && allocated(Refs(l)) && allocated(Refs(r));
    delta := |Before(nd, i)| + c0 + |After(nd, i)| - Size(w);
    if n.elems[1] == NULL {
      WidenTwo(n, pos, left, lcount, e, right, rcount, nd, i, r0, c0, l, r);
    } else {
      WidenThree(n, pos, left, lcount, e, right, rcount, nd, i, r0, c0, l, r);
    }
    AdoptKids(n, w);
    NdRefs(w);
    if WF(l, h) && WF(r, h) {
      NdGood(w, h + 1);
      AtAgain(c.up, w, h + 1, delta);
    }
    WholeWidened(c, l, e, r);
  }

  lemma NdRefs(w: Shape)
    requires w.Nd?
    ensures Refs(w) == {w.ref} + RefsL(w.kids)
  {
  }

  lemma WidenedNd(nd: Shape, i: nat, l: Shape, e: Ptr, r: Shape)
    requires Slot(nd, i)
    ensures var w := Widened(nd, i, l, e, r);
      w.Nd? && w.ref == nd.ref && |w.kids| == |nd.kids| + 1 && |w.elems| == |nd.elems| + 1
        && w.kids == WideKids(nd, i, l, r)
  {
  }

  lemma NdGood(w: Shape, h: nat)
    requires w.Nd? && WF(w, h) && DistinctL(w.kids) && w.ref !in RefsL(w.kids) && Rep(w)
    ensures Good(w, h) && Refs(w) == {w.ref} + RefsL(w.kids)
  {
  }

  /** The two nodes of a split. */
  method SplitNode(n: Node, m: Node, pos: nat, left: Node?, lcount: int, e: Ptr, right: Node?, rcount: int,
                   ghost nd: Shape, ghost r0: Node?, ghost c0: int, ghost l: Shape, ghost r: Shape, ghost h: nat)
    returns (up: Ptr)
    requires nd.Nd? && nd.ref == n && |nd.elems| == 3 && Slot(nd, pos) && Local(nd, pos, r0, c0)
    requires left == RefOf(l) && lcount == Size(l) && right == RefOf(r) && rcount == Size(r)
    requires |m.kids| == |m.counts| == 4 && |m.elems| == 3
    requires var w := Widened(nd, pos, l, e, r);
      && (forall j :: 0 <= j < |w.kids| ==> WF(w.kids[j], h)) && (forall j :: 0 <= j < |w.elems| ==> w.elems[j] != NULL)
      && DistinctL(w.kids) && RepAll(w.kids) && n !in RefsL(w.kids) && m !in RefsL(w.kids) && m != n
    modifies n`kids, n`counts, n`elems, m`kids, m`counts, m`elems, RefsL(Widened(nd, pos, l, e, r).kids)`parent
    ensures var w := Widened(nd, pos, l, e, r);
      |w.kids| == 5 && |w.elems| == 4 && Rep(LeftHalf(m, w)) && Rep(RightHalf(w)) && up == w.elems[2]
  {
    hide Good, Rep, RepL, Refs, RefsL, Distinct, DistinctL, WF, Flat, FlatL, Fields, RepAll, Inner;
    hide Widened, WideKids, WideElems;
    ghost var w := Widened(nd, pos, l, e, r);
    WidenedNd(nd, pos, l, e, r);
    HalvesGood(m, w, h);
    assert allocated(RefsL(w.kids));
    FillLeft(n, m, pos, left, lcount, e, right, rcount, nd, r0, c0, l, r);
    up := KeepRight(n, pos, left, lcount, e, right, rcount, nd, r0, c0, l, r);
    AdoptKids(m, LeftHalf(m, w));
    AdoptKids(n, RightHalf(w));
  }

  /** Insertion into a 4-node splits it; the climb goes on in the node above. */
  method SplitHere(n: Node, pos: nat, left: Node?, lcount: int, e: Ptr, right: Node?, rcount: int,
                   ghost c: Ctx, ghost h: nat, ghost r0: Node?, ghost c0: int, ghost l: Shape, ghost r: Shape)
    returns (m: Node, up: Ptr, ghost a: Shape, ghost b: Shape, ghost c1: int)
    requires Pending(c, h, r0, c0, l, e, r) && c.In? && c.nd.Nd? && c.nd.ref == n && pos == c.i
    requires left == RefOf(l) && lcount == Size(l) && right == RefOf(r) && rcount == Size(r)
    requires |n.elems| == 3 && n.elems[1] != NULL && n.elems[2] != NULL
    modifies n`kids, n`counts, n`elems, CtxRefs(c)`parent, Refs(l)`parent, Refs(r)`parent
    ensures fresh(m) && NodeLike(a) && NodeLike(b) && a.ref == m && b.ref == n
    ensures CtxOK(c) && Pending(c.up, h + 1, n, c1, a, up, b) && n.parent == CtxRef(c.up)
    ensures WholeWith(c.up, a, up, b) == WholeWith(c, l, e, r)
    ensures CtxRefs(c.up) + Refs(a) + Refs(b) == CtxRefs(c) + Refs(l) + Refs(r) + {m}
  {
    hide Good, Rep, RepL, Refs, RefsL, Distinct, DistinctL, WF, Flat, FlatL, Fields, Before, After, RepAll, Inner;
    hide Pending, Offered, At, RepCtx, CtxRefs, WFCtx, DistinctCtx, Whole, WholeWith, Widened, WideKids, WideElems;
    ghost var nd, i := c.nd, c.i;
    PendingIs(c, h, r0, c0, l, e, r);
    PendingParts(c, h, r0, c0, l, e, r);
    PendingKids(c, h, r0, c0, l, e, r);
    ghost var w := Widened(nd, i, l, e, r);
    WidenedNd(nd, i, l, e, r);
    c1 := |Before(nd, i)| + c0 + |After(nd, i)|;
    assert allocated(CtxRefs(c)) && allocated(Refs(l)) && allocated(Refs(r));
    m := new Node(n.parent);
    a, b := LeftHalf(m, w), RightHalf(w);
    HalvesGood(m, w, h);
    WholeSplit(c, l, e, r, m);
    up := SplitNode(n, m, pos, left, lcount, e, right, rcount, nd, r0, c0, l, r, h);
    PendingAgain(c.up, h + 1, n, c1, a, up, b);
  }

  lemma PendingKids(c: Ctx, h: nat, r: Node?, count: int, l: Shape, e: Ptr, r': Shape)
    requires Pending(c, h, r, count, l, e, r') && c.In?
    ensures CtxOK(c)
    ensures var w := Widened(c.nd, c.i, l, e, r');
      (forall j :: 0 <= j < |w.kids| ==> WF(w.kids[j], h)) && (forall j :: 0 <= j < |w.elems| ==> w.elems[j] != NULL)
  {
    WidenedKids(c, h, l, e, r');
  }

  lemma PendingAgain(c: Ctx, h: nat, r: Node?, count: int, l: Shape, e: Ptr, r': Shape)
    requires WFCtx(c, h) && DistinctCtx(c) && RepCtx(c, r, count) && CtxRefs(c) !! Refs(l) !! Refs(r') && e != NULL
    requires WF(l, h) && WF(r', h) && Distinct(l) && Distinct(r') && Rep(l) && Rep(r')
    ensures Pending(c, h, r, count, l, e, r')
  {
  }

  /** The search for `n` among the kids of the node above finds the pending place. */
  lemma PlaceNumber(c: Ctx, h: nat, r: Node, count: int, l: Shape, e: Ptr, r': Shape)
    requires Pending(c, h, r, count, l, e, r') && c.In? && r'.Nd? && r'.ref == r
    ensures c.nd.Nd? && |c.nd.ref.kids| == 4 && ChildNumber(c.nd.ref, r) == c.i
  {
    var ks := c.nd.kids;
    forall j | 0 <= j < |ks| && j != c.i && ks[j].Nd? ensures ks[j].ref != r {
      if j < c.i {
        KidRef(ks[..c.i], j);
      } else {
        KidRef(ks[c.i + 1..], j - c.i - 1);
      }
    }
  }

  /** The old root has split into two: the tree grows at the top. */
  method GrowRoot(left: Node?, lcount: int, e: Ptr, right: Node?, rcount: int, ghost l: Shape, ghost r: Shape,
                  ghost h: nat)
    returns (root: Node, ghost s: Shape)
    requires Pending(Top, h, right, 0, l, e, r)
    requires left == RefOf(l) && lcount == Size(l) && right == RefOf(r) && rcount == Size(r)
    modifies Refs(l)`parent, Refs(r)`parent
    ensures fresh(root) && s.Nd? && s.ref == root && Good(s, h + 1) && root.parent == null
    ensures Flat(s) == WholeWith(Top, l, e, r) && Refs(s) == {root} + Refs(l) + Refs(r)
  {
    hide Good, Rep, RepL, Refs, RefsL, Distinct, DistinctL, WF, Flat, FlatL, Fields, RepAll, Inner, Pending, Offered;
    TopReady(h, right, l, e, r);
    assert allocated(Refs(l)) && allocated(Refs(r));
    root := new Node(null);
    root.kids := root.kids[0 := left][1 := right];
    root.counts := root.counts[0 := lcount][1 := rcount];
    root.elems := root.elems[0 := e];
    s := Nd(root, [l, r], [e]);
    AdoptKids(root, s);
    TopGood(root, l, e, r, h);
  }

  lemma TopReady(h: nat, right: Node?, l: Shape, e: Ptr, r: Shape)
    requires Pending(Top, h, right, 0, l, e, r)
    ensures e != NULL && Refs(l) !! Refs(r) && WF(l, h) && WF(r, h) && Rep(l) && Rep(r)
    ensures DistinctL([l, r]) && RefsL([l, r]) == Refs(l) + Refs(r) && RepAll([l, r])
      && Inner([l, r]) <= Refs(l) + Refs(r)
  {
    TwoDistinct(l, r);
    InnerIs([l, r]);
    assert [l, r][1..] == [r];
    assert RepAll([r]);
  }

  lemma TopGood(root: Node, l: Shape, e: Ptr, r: Shape, h: nat)
    requires WF(l, h) && WF(r, h) && e != NULL && DistinctL([l, r]) && RefsL([l, r]) == Refs(l) + Refs(r)
    requires root !in Refs(l) && root !in Refs(r) && Rep(Nd(root, [l, r], [e]))
    ensures var s := Nd(root, [l, r], [e]);
      Good(s, h + 1) && Flat(s) == WholeWith(Top, l, e, r) && Refs(s) == {root} + Refs(l) + Refs(r)
  {
    FlatNd(root, [l], [], e, [r], []);
    assert [l] + [r] == [l, r] && [] + [e] + [] == [e];
  }

  lemma StartWith(c: Ctx, e: Ptr)
    requires CtxOK(c)
    ensures WholeWith(c, Nil, e, Nil) == Left(c) + [e] + Right(c)
  {
  }

  lemma HalfCounts(c: Ctx, h: nat, r: Node?, count: int, l: Shape, e: Ptr, r': Shape)
    requires Pending(c, h, r, count, l, e, r') && NodeLike(l) && NodeLike(r')
    ensures |l.ref.counts| == |r'.ref.counts| == 4 && |l.ref.elems| == |r'.ref.elems| == 3
    ensures CountOf(l.ref) == Size(l) && CountOf(r'.ref) == Size(r')
  {
    CountIs(l);
    CountIs(r');
  }

  lemma TopPending(h: nat, r: Node?, count: int, l: Shape, e: Ptr, r': Shape)
    requires Pending(Top, h, r, count, l, e, r')
    ensures Pending(Top, h, r, 0, l, e, r') && CtxRefs(Top) == {}
  {
  }

  /** The split of a full node, and where the climb goes on. */
  method SplitStep(n: Node, pos: nat, left: Node?, lcount: int, e: Ptr, right: Node?, rcount: int,
                   ghost c: Ctx, ghost h: nat, ghost r0: Node?, ghost c0: int, ghost l: Shape, ghost r: Shape)
    returns (m: Node, lcount': int, rcount': int, up: Ptr, pos': nat, ghost a: Shape, ghost b: Shape, ghost c1: int)
    requires Pending(c, h, r0, c0, l, e, r) && c.In? && c.nd.Nd? && c.nd.ref == n && pos == c.i
    requires left == RefOf(l) && lcount == Size(l) && right == RefOf(r) && rcount == Size(r)
    requires |n.elems| == 3 && n.elems[1] != NULL && n.elems[2] != NULL
    modifies n`kids, n`counts, n`elems, CtxRefs(c)`parent, Refs(l)`parent, Refs(r)`parent
    ensures fresh(m) && RefOf(a) == m && RefOf(b) == n && lcount' == Size(a) && rcount' == Size(b)
    ensures CtxOK(c) && Pending(c.up, h + 1, n, c1, a, up, b) && n.parent == CtxRef(c.up)
    ensures c.up.In? ==> pos' == c.up.i && c.up.nd.Nd?
    ensures WholeWith(c.up, a, up, b) == WholeWith(c, l, e, r)
    ensures CtxRefs(c.up) + Refs(a) + Refs(b) == CtxRefs(c) + Refs(l) + Refs(r) + {m}
  {
    hide Good, Rep, RepL, Refs, RefsL, Distinct, DistinctL, WF, Flat, FlatL, Fields, Before, After, RepAll, Inner;
    hide Pending, Offered, At, RepCtx, CtxRefs, WFCtx, DistinctCtx, Whole, WholeWith, Widened, WideKids, WideElems;
    m, up, a, b, c1 := SplitHere(n, pos, left, lcount, e, right, rcount, c, h, r0, c0, l, r);
    PendingIs(c.up, h + 1, n, c1, a, up, b);
    PendingParts(c.up, h + 1, n, c1, a, up, b);
    HalfCounts(c.up, h + 1, n, c1, a, up, b);
    assert allocated(CtxRefs(c.up)) && allocated(Refs(a)) && allocated(Refs(b));
    lcount' := CountNode234(m);
    rcount' := CountNode234(n);
    pos' := 0;
    if n.parent != null {
      PlaceNumber(c.up, h + 1, n, c1, a, up, b);
      pos' := ChildNumber(n.parent, n);
    }
  }

  /** What a climb ends with: the insertion where there was room, and the counts above. */
  method Land(n: Node, pos: nat, left: Node?, lcount: int, e: Ptr, right: Node?, rcount: int,
              ghost c: Ctx, ghost h: nat, ghost r0: Node?, ghost c0: int, ghost l: Shape, ghost r: Shape)
    returns (ghost s: Shape, ghost hs: nat)
    requires Offered(c, h, r0, c0, l, e, r) && c.In? && c.nd.Nd? && c.nd.ref == n && AtPlace(c.nd, c.i, pos)
    requires (WF(l, h) && WF(r, h)) || c.up.Top?
    requires left == RefOf(l) && lcount == Size(l) && right == RefOf(r) && rcount == Size(r)
    requires |n.elems| == 3 && (n.elems[1] == NULL || n.elems[2] == NULL)
    modifies n`kids, n`counts, n`elems, CtxRefs(c), Refs(l)`parent, Refs(r)`parent
    ensures CtxOK(c) && s.Nd?
    ensures WF(l, h) && WF(r, h) ==>
      && Good(s, hs) && s.ref.parent == null && s.ref == TopRef(c.up, n) && Flat(s) == WholeWith(c, l, e, r)
      && Refs(s) == CtxRefs(c) + Refs(l) + Refs(r)
    ensures !(WF(l, h) && WF(r, h)) ==> s == Widened(c.nd, c.i, l, e, r) && Rep(s)
  {
    hide Good, Rep, RepL, Refs, RefsL, Distinct, DistinctL, WF, Flat, FlatL, Fields, Before, After, RepAll, Inner;
    hide Offered, At, RepCtx, WFCtx, DistinctCtx, Whole, WholeWith, Widened, WideKids, WideElems;
    PendingParts(c, h, r0, c0, l, e, r);
    assert allocated(CtxRefs(c)) && allocated(Refs(l)) && allocated(Refs(r));
    ghost var w, delta := InsertHere(n, pos, left, lcount, e, right, rcount, c, h, r0, c0, l, r);
    ghost var placed := At(c.up, w, h + 1, delta);
    assert allocated(Refs(w)) && allocated(CtxRefs(c.up));
    s, hs := RecountUpwards(n, c.up, w, h + 1, delta);
  }

  /** From a place up to the root: widen, split where there is no room, grow at the top.
      Above a place that is not below the leaves there must be a root with room, and it is not a tree afterwards. */
  method Climb(t: Tree234, n0: Node, pos0: nat, e0: Ptr, ghost c0: Ctx, ghost h0: nat, ghost r0: Node?,
               ghost count0: int, ghost R: set<Node>)
    returns (ghost s: Shape, ghost hs: nat, ghost R': set<Node>)
    requires Offered(c0, h0, r0, count0, Nil, e0, Nil) && R == CtxRefs(c0)
    requires c0.In? && c0.nd.Nd? && c0.nd.ref == n0 && AtPlace(c0.nd, c0.i, pos0)
    requires if h0 == 0 then r0 == null && t.root == TopRef(c0, null) else c0.up.Top? && |c0.nd.elems| <= 2
    modifies t`root, CtxRefs(c0)
    ensures CtxOK(c0) && s.Nd?
    ensures h0 == 0 ==>
      && Good(s, hs) && t.root == s.ref && s.ref.parent == null && Flat(s) == Left(c0) + [e0] + Right(c0)
      && R' == Refs(s) && R <= R' && fresh(R' - R)
    ensures h0 > 0 ==> t.root == old(t.root) && s == Widened(c0.nd, c0.i, Nil, e0, Nil) && Rep(s)
  {
    hide Good, Rep, RepL, Refs, RefsL, Distinct, DistinctL, WF, Flat, FlatL, Fields, Before, After, RepAll, Inner;
    hide Pending, Offered, At, RepCtx, CtxRefs, WFCtx, DistinctCtx, Whole, WholeWith, Widened, WideKids, WideElems;
    hide Left, Right, Size;
    var n: Node?, pos, e := n0, pos0, e0;
    var left: Node?, lcount: int, right: Node?, rcount: int := null, 0, null, 0;
    ghost var c, h, r, count := c0, h0, r0, count0;
    ghost var a, b := Nil, Nil;
    EmptyIs();
    NilFits(h0);
    PendingIs(c, h, r, count, a, e, b);
    PendingParts(c, h, r, count, a, e, b);
    StartWith(c, e);
    ghost var all := R;
    assert allocated(CtxRefs(c0));
    while n != null
      invariant Offered(c, h, r, count, a, e, b) && CtxOK(c) && n == CtxRef(c)
      invariant if h0 == 0 then Pending(c, h, r, count, a, e, b)
                else c == c0 && h == h0 && n != null && a == b == Nil && e == e0
      invariant c.In? ==> c.nd.Nd? && AtPlace(c.nd, c.i, pos)
      invariant left == RefOf(a) && lcount == Size(a) && right == RefOf(b) && rcount == Size(b)
      invariant h0 == 0 ==> r == right && (c.In? ==> t.root == TopRef(c, r))
      invariant h0 > 0 ==> t.root == old(t.root)
      invariant CtxRefs(c) + Refs(a) + Refs(b) == all && R <= all && fresh(all - R) && allocated(all)
      invariant WholeWith(c, a, e, b) == Left(c0) + [e0] + Right(c0)
      decreases c
    {
      PendingIs(c, h, r, count, a, e, b);
      PendingParts(c, h, r, count, a, e, b);
      if n.elems[1] == NULL || n.elems[2] == NULL {
        s, hs := Land(n, pos, left, lcount, e, right, rcount, c, h, r, count, a, b);
        R' := Refs(s);
        return;
      }
      ghost var a', b', count';
      var m;
      m, lcount, rcount, e, pos, a', b', count' :=
        SplitStep(n, pos, left, lcount, e, right, rcount, c, h, r, count, a, b);
      r, count, a, b, c, h := n, count', a', b', c.up, h + 1;
      all := all + {m};
      left, right := m, n;
      PendingIs(c, h, r, count, a, e, b);
      n := n.parent;
    }
    var root: Node;
    TopPending(h, r, count, a, e, b);
    root, s := GrowRoot(left, lcount, e, right, rcount, a, b, h);
    t.root := root;
    hs, R' := h + 1, Refs(s);
  }

  lemma NilFits(h: nat)
    ensures WF(Nil, h) <==> h == 0
  {
  }

  // ---------- the descent ----------

  /** Where a node sends an insertion: to an equal element, to a kid position, or nowhere. */
  datatype Turn = Found(k: nat) | Go(k: nat, index: int) | OutOfRange

  function IndexTurn(n: Node, index: int): Turn
    requires |n.kids| == |n.counts| == 4 && index >= 0
    reads n`kids, n`counts
  {
    var i1 := index - (n.counts[0] + 1);
    var i2 := i1 - (n.counts[1] + 1);
    var i3 := i2 - (n.counts[2] + 1);
    if n.kids[0] == null then Go(index, index)
    else if index <= n.counts[0] then Go(0, index)
    else if i1 <= n.counts[1] then Go(1, i1)
    else if i2 <= n.counts[2] then Go(2, i2)
    else if i3 <= n.counts[3] then Go(3, i3)
    else OutOfRange
  }

  function CompareTurn(n: Node, cmp: Cmp, e: Ptr): Turn
    requires |n.elems| == 3
    reads n`elems
  {
    var c0, c1, c2 := cmp(e, n.elems[0]), cmp(e, n.elems[1]), cmp(e, n.elems[2]);
    if c0 < 0 then Go(0, -1)
    else if c0 == 0 then Found(0)
    else if n.elems[1] == NULL || c1 < 0 then Go(1, -1)
    else if c1 == 0 then Found(1)
    else if n.elems[2] == NULL || c2 < 0 then Go(2, -1)
    else if c2 == 0 then Found(2)
    else Go(3, -1)
  }

  lemma IndexTurnIs(s: Shape, h: nat, index: int)
    requires Good(s, h) && h >= 1 && 0 <= index <= Size(s)
    ensures |s.ref.kids| == |s.ref.counts| == 4 && |s.ref.elems| == 3
    ensures var r := IndexTurn(s.ref, index);
      && r.Go? && Slot(s, r.k) && s.ref.kids[r.k] == RefOf(s.kids[r.k])
      && (h == 1 ==> index == |Before(s, r.k)|)
      && (h >= 2 ==> 0 <= r.index <= Size(s.kids[r.k]) && index == |Before(s, r.k)| + r.index && r.index >= 0)
  {
    Offsets(s, 0);
    Offsets(s, 1);
    if |s.kids| > 2 { Offsets(s, 2); }
    if |s.kids| > 3 { Offsets(s, 3); }
    assert WF(s.kids[0], h - 1);
  }

  /** An index beyond the end: at an internal node it is rejected once it is beyond the kid slots, used or not;
      otherwise the turn is to a slot without a kid. */
  lemma IndexTurnBeyond(s: Shape, h: nat, index: int)
    requires Good(s, h) && h >= 1 && index > Size(s) && (h == 1 ==> index < 4)
    ensures |s.ref.kids| == |s.ref.counts| == 4 && |s.ref.elems| == 3
    ensures var r := IndexTurn(s.ref, index);
      && (r.OutOfRange? <==> h >= 2 && index > Size(s) + 4 - |s.kids|)
      && (!r.OutOfRange? ==> r.Go? && |s.kids| <= r.k < 4 && s.ref.kids[r.k] == null)
  {
    SizeIs(s);
    assert WF(s.kids[0], h - 1);
    if h == 1 {
      LeafFlat(s.kids, s.elems);
    }
  }

  lemma CompareTurnIs(s: Shape, h: nat, cmp: Cmp, e: Ptr, q: seq<Ptr>, o: int)
    requires Good(s, h) && h >= 1 && e != NULL && Monotone(e, Some(cmp), EQ, q) && Part(q, o, s)
    requires Smaller(e, Some(cmp), EQ, q, o) && Greater(e, Some(cmp), EQ, q, o + Size(s))
    ensures |s.ref.elems| == 3 && |s.ref.kids| == 4
    ensures var r := CompareTurn(s.ref, cmp, e);
      && !r.OutOfRange?
      && (r.Found? ==> (
        && r.k < |s.elems| && s.ref.elems[r.k] == s.elems[r.k] != NULL && s.elems[r.k] in q
        && cmp(e, s.elems[r.k]) == 0))
      && (r.Go? ==> (
        && Slot(s, r.k) && s.ref.kids[r.k] == RefOf(s.kids[r.k])
        && Smaller(e, Some(cmp), EQ, q, o + |Before(s, r.k)|)
        && Greater(e, Some(cmp), EQ, q, o + |Before(s, r.k)| + Size(s.kids[r.k]))))
  {
    hide Good, Rep, RepL, WF, Distinct, DistinctL, RefsL, Flat, FlatL, Before, Monotone, Smaller, Greater;
    IsGood(s, h);
    PartKid(q, o, s, 0);
    PartKid(q, o, s, 1);
    Decide(e, Some(cmp), EQ, q, o + Size(s.kids[0]));
    if |s.elems| >= 2 {
      Decide(e, Some(cmp), EQ, q, o + |Before(s, 1)| + Size(s.kids[1]));
      PartKid(q, o, s, 2);
    }
    if |s.elems| >= 3 {
      Decide(e, Some(cmp), EQ, q, o + |Before(s, 2)| + Size(s.kids[2]));
      PartKid(q, o, s, 3);
    }
  }

  // ---------- the insertion ----------

  function InsertAt(q: seq<Ptr>, i: int, e: Ptr): seq<Ptr>
    requires 0 <= i <= |q|
  {
    q[..i] + [e] + q[i..]
  }

  /** The place between everything smaller and everything greater. */
  ghost predicate Rank(q: seq<Ptr>, cmp: Cmp, e: Ptr, i: int) {
    0 <= i <= |q| && (forall j :: 0 <= j < i ==> cmp(e, q[j]) > 0)
      && (forall j :: i <= j < |q| ==> cmp(e, q[j]) < 0)
  }

  /** How far the descent has come: `index` is relative to the subtree, or `e` belongs inside it. */
  ghost predicate Aimed(t: Tree234, e: Ptr, index0: int, q: seq<Ptr>, c: Ctx, s: Shape, index: int)
    requires CtxOK(c)
  {
    && Whole(c, s) == q
    && if index0 >= 0 then
         |Left(c)| <= index0 && (s.Nd? ==> 0 <= index <= Size(s) && |Left(c)| + index == index0)
           && (s.Nil? ==> |Left(c)| == index0)
       else
         && index < 0 && t.cmp.Some? && e != NULL && Monotone(e, t.cmp, EQ, q)
         && Smaller(e, t.cmp, EQ, q, |Left(c)|) && Greater(e, t.cmp, EQ, q, |Left(c)| + Size(s))
  }

  lemma PartAt(c: Ctx, s: Shape)
    requires CtxOK(c)
    ensures Part(Whole(c, s), |Left(c)|, s)
  {
  }

  /** The root, and an index that no place of the tree has. */
  ghost predicate Beyond(t: Tree234, n: Node, index0: int, index: int, s: Shape, h: nat)
    reads t
  {
    && index == index0 > |t.Contents()| && s == t.shape && h == t.height && n == t.root
    && (h == 1 ==> index < 4)
  }

  /** One step of the descent. */
  method TurnAt(t: Tree234, n: Node, e: Ptr, index0: int, index: int,
                ghost q: seq<Ptr>, ghost c: Ctx, ghost s: Shape, ghost h: nat) returns (r: Turn)
    requires At(c, s, h, 0) && s.Nd? && s.ref == n && CtxOK(c)
    requires Aimed(t, e, index0, q, c, s, index) || Beyond(t, n, index0, index, s, h)
    ensures |n.kids| == 4 && |n.elems| == 3
    ensures Beyond(t, n, index0, index, s, h) ==>
      && (r.OutOfRange? <==> h >= 2 && index > Size(s) + 4 - |s.kids|)
      && (!r.OutOfRange? ==> r.Go? && |s.kids| <= r.k < 4 && n.kids[r.k] == null)
    ensures !Beyond(t, n, index0, index, s, h) ==>
      if r.Found? then
        index0 < 0 && r.k < 3 && n.elems[r.k] in q && n.elems[r.k] != NULL && t.cmp.value(e, n.elems[r.k]) == 0
      else
        && r.Go? && Slot(s, r.k) && r.k < 4 && h >= 1 && n.kids[r.k] == RefOf(s.kids[r.k]) && CtxOK(In(c, s, r.k))
        && Aimed(t, e, index0, q, In(c, s, r.k), s.kids[r.k], r.index) && At(In(c, s, r.k), s.kids[r.k], h - 1, 0)
        && CtxRefs(In(c, s, r.k)) + Refs(s.kids[r.k]) == CtxRefs(c) + Refs(s)
  {
    hide Good, Rep, RepL, Refs, RefsL, Distinct, DistinctL, WF, Flat, FlatL, Fields, Before, After, At, RepCtx, CtxRefs;
    hide WFCtx, DistinctCtx, Monotone, Smaller, Greater, Part, Whole;
    AtParts(c, s, h, 0);
    ghost var beyond := Beyond(t, n, index0, index, s, h);
    if index >= 0 {
      if beyond {
        IndexTurnBeyond(s, h, index);
      } else {
        IndexTurnIs(s, h, index);
      }
      r := IndexTurn(n, index);
    } else {
      PartAt(c, s);
      CompareTurnIs(s, h, t.cmp.value, e, q, |Left(c)|);
      r := CompareTurn(n, t.cmp.value, e);
      if r.Found? { return; }
    }
    if !beyond {
      Down(c, s, h, r.k);
      WholeDown(c, s, r.k);
      AtNil(In(c, s, r.k), s.kids[r.k], h - 1);
    }
  }

  lemma AtNil(c: Ctx, s: Shape, h: nat)
    requires At(c, s, h, 0)
    ensures CtxOK(c) && (s.Nil? <==> h == 0) && (s.Nil? ==> Size(s) == 0)
  {
  }

  /** An index beyond the end that the root rejects: it is internal, and the index is beyond its last slot. */
  ghost predicate Rejects(t: Tree234, index: int)
    reads t
  {
    t.height >= 2 && t.shape.Nd? && index > |t.Contents()| && index > |t.Contents()| + 4 - |t.shape.kids|
  }

  /** An index beyond the end that the root takes for its last kid, although there is a subtree. */
  ghost predicate Overwrites(t: Tree234, index: int)
    reads t
  {
    t.height >= 2 && t.shape.Nd? && |t.Contents()| < index <= |t.Contents()| + 4 - |t.shape.kids|
  }

  /** The last subtree of a node is gone, and the element stands where it was. */
  function WithoutLast(s: Shape, e: Ptr): Shape
    requires NodeLike(s)
  {
    Widened(s, |s.elems|, Nil, e, Nil)
  }

  /** What insertion promises of the list, for the index and for the sorted form. */
  ghost predicate Inserted(q: seq<Ptr>, q': seq<Ptr>, cmp: Option<Cmp>, e: Ptr, index: int, ret: Ptr) {
    if index >= 0 then
      ret == e && q' == if index <= |q| then InsertAt(q, index, e) else q + [e]
    else
      && cmp.Some?
      && ((ret in q && cmp.value(e, ret) == 0 && q' == q)
        || (ret == e && exists i :: Rank(q, cmp.value, e, i) && q' == InsertAt(q, i, e)))
  }

  /** The descent of an insertion: it meets an equal element, ends below a leaf, or leaves the root by a slot
      without a kid. */
  method FindPlace(t: Tree234, e: Ptr, index0: int)
    returns (n: Node, pos: nat, found: Ptr, rejected: bool, ghost c: Ctx)
    requires t.Valid() && t.root != null && e != NULL && (index0 < 0 ==> t.cmp.Some?)
    requires index0 > |t.Contents()| && t.height == 1 ==> index0 < 4
    ensures found != NULL ==> index0 < 0 && found in t.Contents() && t.cmp.value(e, found) == 0
    ensures rejected <==> Rejects(t, index0)
    ensures index0 <= |t.Contents()| && found == NULL ==>
      && At(c, Nil, 0, 0) && CtxOK(c) && c.In? && c.nd.Nd? && c.nd.ref == n && pos == c.i && t.root == TopRef(c, null)
      && Aimed(t, e, index0, t.Contents(), c, Nil, index0) && CtxRefs(c) == t.Repr()
    ensures index0 > |t.Contents()| && !rejected ==>
      found == NULL && n == t.root && t.shape.Nd? && |t.shape.kids| <= pos < 4
  {
    hide Good, Rep, RepL, Refs, RefsL, Distinct, DistinctL, WF, Flat, FlatL, Fields, Before, After, At, RepCtx, CtxRefs;
    hide WFCtx, DistinctCtx, Monotone, Smaller, Greater, Part, Whole;
    ghost var q := t.Contents();
    var np: Node?, index := t.root, index0;
    ghost var s, h := t.shape, t.height;
    c := Top;
    n, pos, found, rejected := t.root, 0, NULL, false;
    AimedStart(t, e, index0);
    assert allocated(t.Repr());
    while np != null
      invariant q == t.Contents() && t.Valid() && found == NULL
      invariant index0 <= |q| ==>
        && At(c, s, h, 0) && CtxOK(c) && RefOf(s) == np
        && Aimed(t, e, index0, q, c, s, index) && CtxRefs(c) + Refs(s) == t.Repr() && t.root == TopRef(c, np)
        && (np == null ==> c.In? && c.nd.Nd? && c.nd.ref == n && c.i == pos)
      invariant index0 > |q| ==>
        if np != null then At(c, s, h, 0) && CtxOK(c) && RefOf(s) == np && Beyond(t, np, index0, index, s, h)
        else n == t.root && |t.shape.kids| <= pos < 4 && !Rejects(t, index0)
      decreases h
    {
      n := np;
      AtParts(c, s, h, 0);
      assert allocated(CtxRefs(c)) && allocated(Refs(s));
      var r := TurnAt(t, n, e, index0, index, q, c, s, h);
      if r.Found? {
        found := n.elems[r.k];
        return;
      }
      if r.OutOfRange? {
        rejected := true;
        return;
      }
      pos, index := r.k, r.index;
      if index0 <= |q| {
        c, s := In(c, s, pos), s.kids[pos];
      }
      h := h - 1;
      np := n.kids[pos];
    }
    if index0 <= |q| {
      AtNil(c, s, h);
      NilRefs();
    }
  }

  lemma NilRefs()
    ensures Refs(Nil) == {}
  {
  }

  lemma AimedStart(t: Tree234, e: Ptr, index0: int)
    requires t.Valid() && t.root != null && e != NULL && (index0 < 0 ==> t.cmp.Some?)
    ensures t.shape.Nd? && At(Top, t.shape, t.height, 0) && CtxRefs(Top) == {} && t.Repr() == Refs(t.shape)
    ensures index0 <= |t.Contents()| ==> Aimed(t, e, index0, t.Contents(), Top, t.shape, index0)
  {
    RootIs(t.shape, t.height);
    if index0 < 0 { SortedIsMonotone(e, t.cmp, EQ, t.Contents()); }
  }

  lemma PendingStart(t: Tree234, c: Ctx, e: Ptr, index0: int, q: seq<Ptr>)
    requires At(c, Nil, 0, 0) && CtxOK(c) && e != NULL && Aimed(t, e, index0, q, c, Nil, index0)
    ensures Pending(c, 0, null, 0, Nil, e, Nil)
    ensures |Left(c)| <= |q| && InsertAt(q, |Left(c)|, e) == Left(c) + [e] + Right(c)
    ensures index0 >= 0 ==> |Left(c)| == index0
    ensures index0 < 0 ==> t.cmp.Some? && Rank(q, t.cmp.value, e, |Left(c)|)
  {
    EmptyIs();
    assert q == Left(c) + Right(c);
  }

  /** The first element of an empty tree. */
  method PlantRoot(e: Ptr) returns (root: Node, ghost s: Shape)
    requires e != NULL
    ensures fresh(root) && root.parent == null && s.Nd? && s.ref == root && Good(s, 1) && Flat(s) == [e]
      && Refs(s) == {root}
  {
    root := new Node(null);
    root.elems := root.elems[0 := e];
    s := Nd(root, [Nil, Nil], [e]);
    LeafFlat(s.kids, s.elems);
    LeafRep(s.kids, root);
  }

  lemma IsEmpty(t: Tree234)
    requires t.Valid()
    ensures t.root == null <==> t.Contents() == []
    ensures t.root == null ==> t.Repr() == {}
    ensures Good(t.shape, t.height)
  {
    SizeZero(t.shape, t.height);
  }

  lemma NothingAfter(s: Shape)
    requires NodeLike(s)
    ensures After(s, |s.elems|) == [] && Flat(s) == Before(s, |s.elems|) + Flat(s.kids[|s.elems|])
  {
    var i := |s.elems|;
    FlatAt(s, i);
    assert s.kids[i + 1..] == [] && s.elems[i..] == [];
  }

  /** The place of the last kid, offered to an element that came beyond it. */
  lemma BeyondStart(t: Tree234, e: Ptr)
    requires t.Valid() && t.root != null && e != NULL
    ensures t.shape.Nd? && NodeLike(t.shape) && t.shape.ref == t.root && t.height >= 1
      && CtxOK(In(Top, t.shape, |t.shape.elems|))
    ensures var s, c := t.shape, In(Top, t.shape, |t.shape.elems|); var k := s.kids[|s.elems|];
      && Size(k) <= |t.Contents()| && TopRef(c, null) == t.root
      && Offered(c, t.height - 1, RefOf(k), Size(k), Nil, e, Nil)
      && (t.height == 1 ==> k == Nil && Left(c) + [e] + Right(c) == t.Contents() + [e] && CtxRefs(c) == t.Repr())
      && CtxRefs(c) <= t.Repr() && Left(c) == t.Contents()[..|t.Contents()| - Size(k)] && Right(c) == []
  {
    var s, c := t.shape, In(Top, t.shape, |t.shape.elems|);
    RootIs(s, t.height);
    Down(Top, s, t.height, |s.elems|);
    NothingAfter(s);
    NilRefs();
  }

  lemma NotBoth(w: Shape, h: nat)
    requires w.Nd? && |w.kids| == |w.elems| + 1 && w.kids[0].Nd? && w.kids[|w.elems|] == Nil
    ensures !WF(w, h)
  {
    if h > 0 {
      NilFits(h - 1);
    }
  }

  /** With its last subtree gone, an internal node is no root of a tree. */
  lemma WithoutLastIs(s: Shape, h: nat, e: Ptr)
    requires WF(s, h) && h >= 2
    ensures var k := s.kids[|s.elems|];
      Size(k) <= Size(s) && Flat(WithoutLast(s, e)) == Flat(s)[..Size(s) - Size(k)] + [e]
    ensures forall h' :: !WF(WithoutLast(s, e), h')
  {
    var i, w := |s.elems|, WithoutLast(s, e);
    FlatWidened(s, i, Nil, e, Nil);
    NothingAfter(s);
    KidsAre(s, h);
    assert w.kids[0] == s.kids[0] && w.kids[|w.elems|] == Nil;
    forall h'
      ensures !WF(w, h')
    {
      NotBoth(w, h');
    }
  }

  method Add234Internal(t: Tree234, e: Ptr, index: int) returns (ret: Ptr)
    requires t.Valid() && e != NULL && (index < 0 ==> t.cmp.Some?)
    requires index > |t.Contents()| && t.height == 1 ==> index < 4
    modifies if (index < 0 && HasEqual(t, e)) || Rejects(t, index) then {} else {t}
    modifies if (index < 0 && HasEqual(t, e)) || Rejects(t, index) then {} else t.Repr()
    ensures old(Rejects(t, index)) ==> ret == NULL
    ensures old(Overwrites(t, index)) ==>
      && ret == e && t.root == old(t.root) && RefOf(t.shape) == t.root && Rep(t.shape)
      && old(NodeLike(t.shape)) && t.shape == WithoutLast(old(t.shape), e)
    ensures !old(Rejects(t, index)) && !old(Overwrites(t, index)) ==>
      && Good(t.shape, t.height) && t.root == RefOf(t.shape) && (t.root != null ==> t.root.parent == null)
      && fresh(t.Repr() - old(t.Repr())) && old(t.Repr()) <= t.Repr()
      && Inserted(old(t.Contents()), t.Contents(), t.cmp, e, index, ret)
  {
    hide Good, Rep, RepL, RefsL, Distinct, DistinctL, WF, Flat, FlatL, Fields, Before, After, At, RepCtx;
    hide WFCtx, DistinctCtx, Aimed, Offered, Pending, Sorted, Comparison, Left, Right, TopRef;
    ghost var q, R := t.Contents(), t.Repr();
    IsEmpty(t);
    if t.root == null {
      var root;
      ghost var s0;
      root, s0 := PlantRoot(e);
      t.root := root;
      t.shape, t.height := s0, 1;
      if index < 0 { assert Rank(q, t.cmp.value, e, 0); }
      return e;
    }
    assert allocated(t.Repr());
    var n, pos, found, rejected;
    ghost var c;
    n, pos, found, rejected, c := FindPlace(t, e, index);
    assert t.Valid();
    if found != NULL { return found; }
    if rejected { return NULL; }
    ghost var h0, r0: Node?, count0 := 0, null, 0;
    BeyondStart(t, e);
    if index > |q| {
      ghost var k := t.shape.kids[|t.shape.elems|];
      c, h0, r0, count0 := In(Top, t.shape, |t.shape.elems|), t.height - 1, RefOf(k), Size(k);
    } else {
      PendingStart(t, c, e, index, q);
    }
    ghost var s, h, R' := Climb(t, n, pos, e, c, h0, r0, count0, CtxRefs(c));
    t.shape, t.height := s, h;
    ret := e;
  }

  lemma RankInRange(q: seq<Ptr>, cmp: Cmp, e: Ptr, i: int)
    requires Comparison(cmp) && Sorted(cmp, q) && Rank(q, cmp, e, i)
    ensures 0 <= i <= |q| && Sorted(cmp, InsertAt(q, i, e))
  {
    hide Comparison;
    forall a, b ensures cmp(a, b) > 0 ==> cmp(b, a) < 0 {
      Compares(cmp, b, a, b);
    }
    var r := InsertAt(q, i, e);
    forall j, k | 0 <= j < k < |r| ensures cmp(r[j], r[k]) < 0 {
      var j' := if j < i then j else j - 1;
      var k' := if k < i then k else k - 1;
      if j != i { assert r[j] == q[j']; }
      if k != i { assert r[k] == q[k']; }
      if k == i { assert cmp(e, q[j']) > 0; }
      if j == i { assert cmp(e, q[k']) < 0; }
    }
  }

  /** add234: into a sorted tree, unless an equal element is there. */
  method Add234(t: Tree234, e: Ptr) returns (ret: Ptr)
    requires t.Valid() && e != NULL
    modifies if t.cmp.None? || HasEqual(t, e) then {} else {t}
    modifies if t.cmp.None? || HasEqual(t, e) then {} else t.Repr()
    ensures t.Valid() && fresh(t.Repr() - old(t.Repr())) && old(t.Repr()) <= t.Repr()
    ensures t.cmp.None? ==> ret == NULL && t.Contents() == old(t.Contents())
    ensures t.cmp.Some? ==> var q, cmp := old(t.Contents()), t.cmp.value;
      if old(HasEqual(t, e)) then ret in q && cmp(e, ret) == 0 && t.Contents() == q
      else ret == e && exists i :: Rank(q, cmp, e, i) && t.Contents() == InsertAt(q, i, e)
    ensures t.cmp.Some? ==> forall i, j :: 0 <= i < j < |t.Contents()| ==>
      t.cmp.value(t.Contents()[i], t.Contents()[j]) < 0
    ensures t.cmp.Some? && !old(HasEqual(t, e)) ==> var q := old(t.Contents());
      exists i :: 0 <= i <= |q| && t.Contents() == q[..i] + [e] + q[i..]
        && forall j :: 0 <= j < |q| ==> if j < i then t.cmp.value(e, q[j]) > 0 else t.cmp.value(e, q[j]) < 0
  {
    if t.cmp.None? { return NULL; }
    ghost var q := t.Contents();
    ret := Add234Internal(t, e, -1);
    if ret == e && exists i :: Rank(q, t.cmp.value, e, i) && t.Contents() == InsertAt(q, i, e) {
      ghost var i :| Rank(q, t.cmp.value, e, i) && t.Contents() == InsertAt(q, i, e);
      RankInRange(q, t.cmp.value, e, i);
    }
  }

  /** addpos234: into an unsorted tree at an index.  One that is too large is refused by some internal roots; an
      empty tree and a leaf put the element at the end, and the other roots lose their last subtree. */
  method AddPos234(t: Tree234, e: Ptr, index: int) returns (ret: Ptr)
    requires t.Valid() && e != NULL
    requires index > |t.Contents()| && t.height == 1 ==> index < 4
    modifies if index < 0 || t.cmp.Some? || Rejects(t, index) then {} else {t}
    modifies if index < 0 || t.cmp.Some? || Rejects(t, index) then {} else t.Repr()
    ensures index < 0 || t.cmp.Some? || old(Rejects(t, index)) ==>
      ret == NULL && t.Valid() && t.Contents() == old(t.Contents()) && t.Repr() == old(t.Repr())
    ensures !(index < 0 || t.cmp.Some? || old(Rejects(t, index))) ==> ret == e
    ensures index >= 0 && t.cmp.None? && old(Overwrites(t, index)) ==>
      && t.root == old(t.root) && RefOf(t.shape) == t.root && Rep(t.shape) && (forall h :: !WF(t.shape, h))
      && old(t.shape.Nd? && |t.shape.kids| == |t.shape.elems| + 1)
      && var q, k := old(t.Contents()), old(t.shape.kids[|t.shape.elems|]);
         0 < Size(k) <= |q| && t.Contents() == q[..|q| - Size(k)] + [e]
    ensures index >= 0 && t.cmp.None? && !old(Rejects(t, index)) && !old(Overwrites(t, index)) ==>
      && t.Valid() && fresh(t.Repr() - old(t.Repr())) && old(t.Repr()) <= t.Repr()
      && var q := old(t.Contents()); t.Contents() == if index <= |q| then InsertAt(q, index, e) else q + [e]
  {
    if index < 0 || t.cmp.Some? { return NULL; }
    assert allocated(t.Repr());
    if Overwrites(t, index) {
      WithoutLastIs(t.shape, t.height, e);
      SizeZero(t.shape.kids[|t.shape.elems|], t.height - 1);
    }
    ret := Add234Internal(t, e, index);
  }

  /** What the header promises of an index that is too large holds exactly where the root rejects it; and whether it
      does can be read off the root: it has kids, and the index is beyond all four kid slots. */
  lemma RejectsIs(t: Tree234, index: int)
    requires t.Valid()
    ensures Rejects(t, index) <==>
      && t.root != null && |t.root.kids| == 4 && t.root.kids[0] != null
      && index > |t.Contents()| + (if t.root.kids[2] == null then 2 else if t.root.kids[3] == null then 1 else 0)
  {
    IsEmpty(t);
    if t.root != null {
      var s, n := t.shape, t.root;
      RootIs(s, t.height);
      if t.height >= 2 {
        KidsAre(s, t.height);
      }
      assert n.kids[0] == RefOf(s.kids[0]);
      assert n.kids[2] == (if |s.kids| > 2 then RefOf(s.kids[2]) else null);
      assert n.kids[3] == (if |s.kids| > 3 then RefOf(s.kids[3]) else null);
    }
  }

  /** An empty tree refuses no index. */
  method EmptyTakesAnyIndex(e: Ptr, index: nat) returns (t: Tree234, ret: Ptr)
    requires e != NULL
    ensures ret == e && t.Valid() && t.Contents() == [e]
  {
    t := new Tree234(None);
    ret := AddPos234(t, e, index);
  }

  /** Five elements go in and some are lost: the fifth comes to an index one too large. */
  method ElementsAreLost(e: Ptr) returns (t: Tree234, ret: Ptr)
    requires e != NULL
    ensures ret == e && |t.Contents()| < 5 && t.root != null && t.root == RefOf(t.shape) && forall h :: !WF(t.shape, h)
  {
    t := new Tree234(None);
    ret := AddPos234(t, e, 0);
    ret := AddPos234(t, e, 1);
    ret := AddPos234(t, e, 2);
    ret := AddPos234(t, e, 3);
    FourIsInternal(t);
    ret := AddPos234(t, e, 5);
  }

  lemma FourIsInternal(t: Tree234)
    requires t.Valid() && |t.Contents()| == 4
    ensures Overwrites(t, 5)
  {
    var s := t.shape;
    IsEmpty(t);
    RootIs(s, t.height);
    SizeIs(s);
    SizeZero(s.kids[0], t.height - 1);
    SizeZero(s.kids[1], t.height - 1);
    if |s.kids| > 2 { SizeZero(s.kids[2], t.height - 1); }
  }
}
