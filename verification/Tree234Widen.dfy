/** Insertion at one node: where there was one kid there are two, with an element between them;
    a node that grows too wide splits into a 3-node and a 2-node. */
module Tree234Widen {
  import opened Tree234Shapes
  import opened Tree234Nodes
  import opened Tree234Moves

  // ---------- the widened node as a value ----------

  function WideKids(nd: Shape, i: nat, l: Shape, r: Shape): seq<Shape>
    requires Slot(nd, i)
  {
    nd.kids[..i] + [l, r] + nd.kids[i + 1..]
  }

  function WideElems(nd: Shape, i: nat, e: Ptr): seq<Ptr>
    requires Slot(nd, i)
  {
    nd.elems[..i] + [e] + nd.elems[i..]
  }

  function Widened(nd: Shape, i: nat, l: Shape, e: Ptr, r: Shape): Shape
    requires Slot(nd, i)
  {
    Nd(nd.ref, WideKids(nd, i, l, r), WideElems(nd, i, e))
  }

  lemma {:induction false} PreConcat(ks1: seq<Shape>, es1: seq<Ptr>, ks2: seq<Shape>, es2: seq<Ptr>)
    requires |ks1| == |es1| && ks2 != []
    ensures FlatL(ks1 + ks2, es1 + es2) == PreL(ks1, es1) + FlatL(ks2, es2)
  {
    if ks1 == [] {
      assert ks1 + ks2 == ks2 && es1 + es2 == es2;
    } else {
      assert (ks1 + ks2)[1..] == ks1[1..] + ks2 && (es1 + es2)[1..] == es1[1..] + es2;
      PreConcat(ks1[1..], es1[1..], ks2, es2);
    }
  }

  lemma FlatWidened(nd: Shape, i: nat, l: Shape, e: Ptr, r: Shape)
    requires Slot(nd, i)
    ensures Flat(Widened(nd, i, l, e, r)) == Before(nd, i) + (Flat(l) + [e] + Flat(r)) + After(nd, i)
  {
    var ks, es := [l, r] + nd.kids[i + 1..], [e] + nd.elems[i..];
    assert WideKids(nd, i, l, r) == nd.kids[..i] + ks && WideElems(nd, i, e) == nd.elems[..i] + es;
    PreConcat(nd.kids[..i], nd.elems[..i], ks, es);
    FlatTwo(l, e, r, nd.kids[i + 1..], nd.elems[i..]);
  }

  lemma FlatTwo(l: Shape, e: Ptr, r: Shape, kids: seq<Shape>, elems: seq<Ptr>)
    requires |kids| == |elems|
    ensures FlatL([l, r] + kids, [e] + elems) == Flat(l) + [e] + Flat(r) + PostL(kids, elems)
  {
    var ks, es := [l, r] + kids, [e] + elems;
    assert ks[1..] == [r] + kids && es[1..] == elems;
    FlatHead(ks[1..], es[1..]);
    assert ks[1..][1..] == kids;
  }

  lemma DistinctWidened(c: Ctx, l: Shape, r: Shape)
    requires c.In? && CtxOK(c) && DistinctCtx(c) && Distinct(l) && Distinct(r)
    requires CtxRefs(c) !! Refs(l) !! Refs(r)
    ensures var ks := WideKids(c.nd, c.i, l, r);
      && DistinctL(ks) && c.nd.ref !in RefsL(ks) && CtxRefs(c.up) !! {c.nd.ref} + RefsL(ks)
      && CtxRefs(c.up) + {c.nd.ref} + RefsL(ks) == CtxRefs(c) + Refs(l) + Refs(r)
  {
    hide Distinct, DistinctL, Refs, RefsL;
    var a, b := c.nd.kids[..c.i], c.nd.kids[c.i + 1..];
    var ks := WideKids(c.nd, c.i, l, r);
    TwoDistinct(l, r);
    DistinctConcat(a, [l, r]);
    DistinctConcat(a + [l, r], b);
  }

  lemma TwoDistinct(l: Shape, r: Shape)
    requires Distinct(l) && Distinct(r) && Refs(l) !! Refs(r)
    ensures DistinctL([l, r]) && RefsL([l, r]) == Refs(l) + Refs(r)
  {
    assert [l, r][1..] == [r] && [r][1..] == [];
    assert RefsL([r]) == Refs(r) && DistinctL([r]);
  }

  lemma WidenedKids(c: Ctx, h: nat, l: Shape, e: Ptr, r: Shape)
    requires c.In? && WFCtx(c, h) && WF(l, h) && WF(r, h) && e != NULL
    ensures var w := Widened(c.nd, c.i, l, e, r);
      && |w.kids| == |c.nd.kids| + 1 == |w.elems| + 1
      && (forall j :: 0 <= j < |w.kids| ==> WF(w.kids[j], h))
      && (forall j :: 0 <= j < |w.elems| ==> w.elems[j] != NULL)
      && (|c.nd.elems| <= 2 ==> WF(w, h + 1))
  {
    var w := Widened(c.nd, c.i, l, e, r);
    forall j | 0 <= j < |w.kids| ensures WF(w.kids[j], h) {
      if j < c.i { assert w.kids[j] == c.nd.kids[j]; }
      else if j > c.i + 1 { assert w.kids[j] == c.nd.kids[j - 1]; }
    }
  }

  // ---------- kids whose parent fields are free ----------

  ghost predicate RepAll(ks: seq<Shape>)
    reads RefsL(ks)`kids, RefsL(ks)`counts, RefsL(ks)`elems, Inner(ks)`parent
  {
    ks == [] || (Rep(ks[0]) && RepAll(ks[1..]))
  }

  /** The nodes strictly below the kids. */
  ghost function Inner(ks: seq<Shape>): set<Node> {
    if ks == [] then {} else (if ks[0].Nil? then {} else RefsL(ks[0].kids)) + Inner(ks[1..])
  }

  lemma {:induction false} RepAllConcat(ks1: seq<Shape>, ks2: seq<Shape>)
    ensures RepAll(ks1 + ks2) <==> RepAll(ks1) && RepAll(ks2)
    ensures Inner(ks1 + ks2) == Inner(ks1) + Inner(ks2)
  {
    if ks1 == [] {
      assert ks1 + ks2 == ks2;
    } else {
      assert (ks1 + ks2)[1..] == ks1[1..] + ks2;
      RepAllConcat(ks1[1..], ks2);
    }
  }

  lemma {:induction false} RepAllIs(ks: seq<Shape>, p: Node)
    ensures RepL(ks, p) <==> RepAll(ks) && forall j :: 0 <= j < |ks| && ks[j].Nd? ==> ks[j].ref.parent == p
  {
    if ks != [] {
      RepAllIs(ks[1..], p);
      assert forall j :: 0 < j < |ks| ==> ks[j] == ks[1..][j - 1];
    }
  }

  lemma {:induction false} InnerIs(ks: seq<Shape>)
    requires DistinctL(ks)
    ensures Inner(ks) <= RefsL(ks)
    ensures forall j :: 0 <= j < |ks| && ks[j].Nd? ==> ks[j].ref in RefsL(ks) && ks[j].ref !in Inner(ks)
    ensures forall j, k :: 0 <= j < k < |ks| && ks[j].Nd? && ks[k].Nd? ==> ks[j].ref != ks[k].ref
  {
    if ks != [] {
      InnerIs(ks[1..]);
      assert forall j :: 0 < j < |ks| ==> ks[j] == ks[1..][j - 1];
    }
  }

  method AdoptOne(n: Node, j: nat, ghost ks: seq<Shape>)
    requires |n.kids| == 4 && j < 4 && DistinctL(ks) && RepAll(ks) && n !in RefsL(ks)
    requires n.kids[j] == if j < |ks| then RefOf(ks[j]) else null
    modifies Ptrs(n.kids[j])`parent
    ensures RepAll(ks) && (j < |ks| && ks[j].Nd? ==> ks[j].ref.parent == n)
  {
    InnerIs(ks);
    if n.kids[j] != null { n.kids[j].parent := n; }
    assert RepAll(ks);
  }

  /** Every kid of `n` gets `n` as its parent. */
  method AdoptKids(n: Node, ghost s: Shape)
    requires s.Nd? && s.ref == n && Local(s, -1, null, 0) && |s.kids| <= 4 && DistinctL(s.kids) && RepAll(s.kids)
    requires n !in RefsL(s.kids)
    modifies RefsL(s.kids)`parent
    ensures Rep(s)
  {
    ghost var ks := s.kids;
    InnerIs(ks);
    assert allocated(RefsL(ks));
    AdoptOne(n, 0, ks);
    AdoptOne(n, 1, ks);
    AdoptOne(n, 2, ks);
    AdoptOne(n, 3, ks);
    RepAllIs(ks, n);
  }

  // ---------- the field updates ----------

  /** The code takes any position beyond the last kid for the last kid. */
  predicate AtPlace(nd: Shape, i: nat, pos: nat)
    requires nd.Nd?
  {
    pos == i || (i == |nd.elems| && i < pos < 4)
  }

  /** Insertion into a 2-node at kid position `pos`. */
  method WidenTwo(n: Node, pos: nat, left: Node?, lcount: int, e: Ptr, right: Node?, rcount: int,
                  ghost nd: Shape, ghost i: nat, ghost r0: Node?, ghost c0: int, ghost l: Shape, ghost r: Shape)
    requires nd.Nd? && nd.ref == n && |nd.elems| == 1 && Slot(nd, i) && Local(nd, i, r0, c0)
    requires AtPlace(nd, i, pos)
    requires left == RefOf(l) && lcount == Size(l) && right == RefOf(r) && rcount == Size(r)
    modifies n`kids, n`counts, n`elems
    ensures Local(Widened(nd, i, l, e, r), -1, null, 0)
  {
    if pos == 0 {
      n.kids := n.kids[2 := n.kids[1]][1 := right][0 := left];
      n.counts := n.counts[2 := n.counts[1]][1 := rcount][0 := lcount];
      n.elems := n.elems[1 := n.elems[0]][0 := e];
    } else {
      n.kids := n.kids[2 := right][1 := left];
      n.counts := n.counts[2 := rcount][1 := lcount];
      n.elems := n.elems[1 := e];
    }
  }

  /** Insertion into a 3-node at kid position `pos`. */
  method WidenThree(n: Node, pos: nat, left: Node?, lcount: int, e: Ptr, right: Node?, rcount: int,
                    ghost nd: Shape, ghost i: nat, ghost r0: Node?, ghost c0: int, ghost l: Shape, ghost r: Shape)
    requires nd.Nd? && nd.ref == n && |nd.elems| == 2 && Slot(nd, i) && Local(nd, i, r0, c0)
    requires AtPlace(nd, i, pos)
    requires left == RefOf(l) && lcount == Size(l) && right == RefOf(r) && rcount == Size(r)
    modifies n`kids, n`counts, n`elems
    ensures Local(Widened(nd, i, l, e, r), -1, null, 0)
  {
    if pos == 0 {
      n.kids := n.kids[3 := n.kids[2]][2 := n.kids[1]][1 := right][0 := left];
      n.counts := n.counts[3 := n.counts[2]][2 := n.counts[1]][1 := rcount][0 := lcount];
      n.elems := n.elems[2 := n.elems[1]][1 := n.elems[0]][0 := e];
    } else if pos == 1 {
      n.kids := n.kids[3 := n.kids[2]][2 := right][1 := left];
      n.counts := n.counts[3 := n.counts[2]][2 := rcount][1 := lcount];
      n.elems := n.elems[2 := n.elems[1]][1 := e];
    } else {
      n.kids := n.kids[3 := right][2 := left];
      n.counts := n.counts[3 := rcount][2 := lcount];
      n.elems := n.elems[2 := e];
    }
  }

  /** The two halves of a widened 4-node, the left one in the new node `m`. */
  function LeftHalf(m: Node, w: Shape): Shape
    requires w.Nd? && |w.kids| == 5 && |w.elems| == 4
  {
    Nd(m, w.kids[..3], w.elems[..2])
  }

  function RightHalf(w: Shape): Shape
    requires w.Nd? && |w.kids| == 5 && |w.elems| == 4
  {
    Nd(w.ref, w.kids[3..], w.elems[3..])
  }

  /** The widened node, position by position. */
  lemma WidenedIs(nd: Shape, i: nat, l: Shape, e: Ptr, r: Shape)
    requires Slot(nd, i) && |nd.elems| == 3
    ensures var w, k, x := Widened(nd, i, l, e, r), nd.kids, nd.elems;
      && w.Nd? && w.ref == nd.ref
      && w.kids == (if i == 0 then [l, r, k[1], k[2], k[3]] else if i == 1 then [k[0], l, r, k[2], k[3]]
                    else if i == 2 then [k[0], k[1], l, r, k[3]] else [k[0], k[1], k[2], l, r])
      && w.elems == (if i == 0 then [e, x[0], x[1], x[2]] else if i == 1 then [x[0], e, x[1], x[2]]
                     else if i == 2 then [x[0], x[1], e, x[2]] else [x[0], x[1], x[2], e])
  {
  }

  lemma LeftIs(m: Node, nd: Shape, i: nat, l: Shape, e: Ptr, r: Shape)
    requires Slot(nd, i) && |nd.elems| == 3
    ensures var w, k, x := Widened(nd, i, l, e, r), nd.kids, nd.elems;
      && w.Nd? && w.ref == nd.ref && |w.kids| == 5 && |w.elems| == 4
      && LeftHalf(m, w) == Nd(m,
          if i == 0 then [l, r, k[1]] else if i == 1 then [k[0], l, r]
          else if i == 2 then [k[0], k[1], l] else [k[0], k[1], k[2]],
          if i == 0 then [e, x[0]] else if i == 1 then [x[0], e] else [x[0], x[1]])
  {
    hide Widened;
    WidenedIs(nd, i, l, e, r);
  }

  lemma RightIs(nd: Shape, i: nat, l: Shape, e: Ptr, r: Shape)
    requires Slot(nd, i) && |nd.elems| == 3
    ensures var w, k, x := Widened(nd, i, l, e, r), nd.kids, nd.elems;
      && w.Nd? && w.ref == nd.ref && |w.kids| == 5 && |w.elems| == 4
      && RightHalf(w) == Nd(nd.ref,
          if i == 2 then [r, k[3]] else if i == 3 then [l, r] else [k[2], k[3]],
          if i == 3 then [e] else [x[2]])
      && w.elems[2] == if i == 2 then e else if i == 3 then x[2] else x[1]
  {
    hide Widened;
    WidenedIs(nd, i, l, e, r);
  }

  /** Insertion into a 4-node at kid position `pos`: the new node `m` takes the left half ... */
  method FillLeft(n: Node, m: Node, pos: nat, left: Node?, lcount: int, e: Ptr, right: Node?, rcount: int,
                  ghost nd: Shape, ghost r0: Node?, ghost c0: int, ghost l: Shape, ghost r: Shape)
    requires nd.Nd? && nd.ref == n && |nd.elems| == 3 && Slot(nd, pos) && Local(nd, pos, r0, c0)
    requires left == RefOf(l) && lcount == Size(l) && right == RefOf(r) && rcount == Size(r)
    requires n != m && |m.kids| == |m.counts| == 4 && |m.elems| == 3
    modifies m`kids, m`counts, m`elems
    ensures var w := Widened(nd, pos, l, e, r); Local(LeftHalf(m, w), -1, null, 0)
  {
    hide Widened, WideKids, WideElems, LeftHalf, RightHalf, Flat, FlatL, Size, Fields, Local;
    FieldsOf(nd, pos, r0, c0);
    ghost var K, C, E := n.kids, n.counts, n.elems;
    if pos == 0 {
      m.kids := [left, right, n.kids[1], null];
      m.counts := [lcount, rcount, n.counts[1], 0];
      m.elems := [e, n.elems[0], NULL];
    } else if pos == 1 {
      m.kids := [n.kids[0], left, right, null];
      m.counts := [n.counts[0], lcount, rcount, 0];
      m.elems := [n.elems[0], e, NULL];
    } else if pos == 2 {
      m.kids := [n.kids[0], n.kids[1], left, null];
      m.counts := [n.counts[0], n.counts[1], lcount, 0];
      m.elems := [n.elems[0], n.elems[1], NULL];
    } else {
      m.kids := [n.kids[0], n.kids[1], n.kids[2], null];
      m.counts := [n.counts[0], n.counts[1], n.counts[2], 0];
      m.elems := [n.elems[0], n.elems[1], NULL];
    }
    LeftFields(m, nd, pos, l, e, r, r0, c0, K, C, E);
  }

  lemma FieldsOf(nd: Shape, i: int, r: Node?, c: int)
    requires nd.Nd? && Local(nd, i, r, c)
    ensures |nd.ref.kids| == |nd.ref.counts| == 4 && |nd.ref.elems| == 3
    ensures Fields(nd, i, r, c, nd.ref.kids, nd.ref.counts, nd.ref.elems)
  {
  }

  lemma LeftFields(m: Node, nd: Shape, i: nat, l: Shape, e: Ptr, r: Shape, r0: Node?, c0: int,
                   K: seq<Node?>, C: seq<int>, E: seq<Ptr>)
    requires nd.Nd? && |nd.elems| == 3 && Slot(nd, i) && Fields(nd, i, r0, c0, K, C, E)
    requires m.kids == (if i == 0 then [RefOf(l), RefOf(r), K[1], null]
                        else if i == 1 then [K[0], RefOf(l), RefOf(r), null]
                        else if i == 2 then [K[0], K[1], RefOf(l), null] else [K[0], K[1], K[2], null])
    requires m.counts == (if i == 0 then [Size(l), Size(r), C[1], 0] else if i == 1 then [C[0], Size(l), Size(r), 0]
                          else if i == 2 then [C[0], C[1], Size(l), 0] else [C[0], C[1], C[2], 0])
    requires m.elems == (if i == 0 then [e, E[0], NULL] else if i == 1 then [E[0], e, NULL] else [E[0], E[1], NULL])
    ensures Local(LeftHalf(m, Widened(nd, i, l, e, r)), -1, null, 0)
  {
    hide Widened, LeftHalf, Size;
    LeftIs(m, nd, i, l, e, r);
  }

  /** ... and `n` keeps the right half; the element between them moves up. */
  method KeepRight(n: Node, pos: nat, left: Node?, lcount: int, e: Ptr, right: Node?, rcount: int,
                   ghost nd: Shape, ghost r0: Node?, ghost c0: int, ghost l: Shape, ghost r: Shape)
    returns (up: Ptr)
    requires nd.Nd? && nd.ref == n && |nd.elems| == 3 && Slot(nd, pos) && Local(nd, pos, r0, c0)
    requires left == RefOf(l) && lcount == Size(l) && right == RefOf(r) && rcount == Size(r)
    modifies n`kids, n`counts, n`elems
    ensures var w := Widened(nd, pos, l, e, r); Local(RightHalf(w), -1, null, 0) && up == w.elems[2]
  {
    hide Widened, WideKids, WideElems, LeftHalf, RightHalf, Flat, FlatL, Size;
    RightIs(nd, pos, l, e, r);
    if pos == 0 || pos == 1 {
      up := n.elems[1];
      n.kids := [n.kids[2], n.kids[3], null, null];
      n.counts := [n.counts[2], n.counts[3], 0, 0];
      n.elems := [n.elems[2], NULL, NULL];
    } else if pos == 2 {
      up := e;
      n.kids := [right, n.kids[3], null, null];
      n.counts := [rcount, n.counts[3], 0, 0];
      n.elems := [n.elems[2], NULL, NULL];
    } else {
      up := n.elems[2];
      n.kids := [left, right, null, null];
      n.counts := [lcount, rcount, 0, 0];
      n.elems := [e, NULL, NULL];
    }
  }
}
