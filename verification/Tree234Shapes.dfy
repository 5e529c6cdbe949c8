/** The node object of the counted 2-3-4 tree, and the shape of a tree of such nodes.  A shape is
    an ordinary value that remembers which node object stands where, so that inductive arguments
    are about values and only the last step of each proof is about the heap. */
module Tree234Shapes {

  /** An element is a `void *`: an address, with 0 for NULL. */
  type Ptr = int

  const NULL: Ptr := 0

  /** One node. The three fixed arrays are part of the struct, so they are sequence fields. */
  class Node {
    var parent: Node?
    var kids: seq<Node?>
    var counts: seq<int>
    var elems: seq<Ptr>

    constructor (parent: Node?)
      ensures this.parent == parent
      ensures kids == [null, null, null, null] && counts == [0, 0, 0, 0] && elems == [NULL, NULL, NULL]
    {
      this.parent := parent;
      kids := [null, null, null, null];
      counts := [0, 0, 0, 0];
      elems := [NULL, NULL, NULL];
    }
  }

  /** `Nil` stands for a NULL child pointer; a leaf is a node all of whose kids are `Nil`. */
  datatype Shape = Nil | Nd(ref: Node, kids: seq<Shape>, elems: seq<Ptr>)

  function RefOf(s: Shape): Node? {
    if s.Nil? then null else s.ref
  }

  // ---------- the element sequence ----------

  /** The elements of a shape in order. */
  ghost function Flat(s: Shape): seq<Ptr>
    decreases s, 1
  {
    if s.Nil? then [] else FlatL(s.kids, s.elems)
  }

  ghost function FlatL(ks: seq<Shape>, es: seq<Ptr>): seq<Ptr>
    decreases ks, 0
  {
    if ks == [] then [] else
    if es == [] then Flat(ks[0]) else
    Flat(ks[0]) + [es[0]] + FlatL(ks[1..], es[1..])
  }

  ghost function Size(s: Shape): nat {
    |Flat(s)|
  }

  lemma {:induction false} FlatConcat(ks1: seq<Shape>, es1: seq<Ptr>, e: Ptr, ks2: seq<Shape>, es2: seq<Ptr>)
    requires |ks1| == |es1| + 1 && ks2 != []
    ensures FlatL(ks1 + ks2, es1 + [e] + es2) == FlatL(ks1, es1) + [e] + FlatL(ks2, es2)
  {
    var ks, es := ks1 + ks2, es1 + [e] + es2;
    if es1 == [] {
      assert ks[1..] == ks2 && es[1..] == es2;
    } else {
      assert ks[1..] == ks1[1..] + ks2;
      assert es[1..] == es1[1..] + [e] + es2;
      FlatConcat(ks1[1..], es1[1..], e, ks2, es2);
    }
  }

  // ---------- the nodes of a shape ----------

  ghost function Refs(s: Shape): (r: set<Node>)
    ensures s.Nd? ==> s.ref in r
    decreases s, 1
  {
    if s.Nil? then {} else {s.ref} + RefsL(s.kids)
  }

  ghost function RefsL(ks: seq<Shape>): set<Node>
    decreases ks, 0
  {
    if ks == [] then {} else Refs(ks[0]) + RefsL(ks[1..])
  }

  /** No node object stands in two places. */
  ghost predicate Distinct(s: Shape)
    decreases s, 1
  {
    match s
    case Nil => true
    case Nd(r, ks, es) => r !in RefsL(ks) && DistinctL(ks)
  }

  ghost predicate DistinctL(ks: seq<Shape>)
    decreases ks, 0
  {
    ks == [] || (Distinct(ks[0]) && Refs(ks[0]) !! RefsL(ks[1..]) && DistinctL(ks[1..]))
  }

  lemma {:induction false} DistinctConcat(ks1: seq<Shape>, ks2: seq<Shape>)
    ensures RefsL(ks1 + ks2) == RefsL(ks1) + RefsL(ks2)
    ensures DistinctL(ks1 + ks2) <==> DistinctL(ks1) && DistinctL(ks2) && RefsL(ks1) !! RefsL(ks2)
  {
    if ks1 == [] {
      assert ks1 + ks2 == ks2;
    } else {
      assert (ks1 + ks2)[1..] == ks1[1..] + ks2;
      DistinctConcat(ks1[1..], ks2);
    }
  }

  lemma DistinctAt(ks: seq<Shape>, i: nat)
    requires i < |ks|
    ensures RefsL(ks) == RefsL(ks[..i]) + Refs(ks[i]) + RefsL(ks[i + 1..])
    ensures DistinctL(ks) <==>
      && DistinctL(ks[..i]) && Distinct(ks[i]) && DistinctL(ks[i + 1..])
      && RefsL(ks[..i]) !! Refs(ks[i]) !! RefsL(ks[i + 1..])
  {
    assert ks == ks[..i] + ks[i..];
    DistinctConcat(ks[..i], ks[i..]);
    assert ks[i..][1..] == ks[i + 1..];
  }

  lemma DistinctAt2(ks: seq<Shape>, i: nat)
    requires i + 1 < |ks|
    ensures RefsL(ks) == RefsL(ks[..i]) + Refs(ks[i]) + Refs(ks[i + 1]) + RefsL(ks[i + 2..])
    ensures DistinctL(ks) <==>
      && DistinctL(ks[..i]) && Distinct(ks[i]) && Distinct(ks[i + 1]) && DistinctL(ks[i + 2..])
      && RefsL(ks[..i]) !! Refs(ks[i]) !! Refs(ks[i + 1]) !! RefsL(ks[i + 2..])
  {
    DistinctAt(ks, i);
    DistinctAt(ks[i + 1..], 0);
    assert ks[i + 1..][..0] == [] && ks[i + 1..][1..] == ks[i + 2..];
  }

  // ---------- balance ----------

  ghost predicate NodeLike(s: Shape) {
    && s.Nd? && 1 <= |s.elems| <= 3 && |s.kids| == |s.elems| + 1
    && forall i :: 0 <= i < |s.elems| ==> s.elems[i] != NULL
  }

  /** Uniform height; one to three elements a node, none of them NULL, and one more kid. */
  ghost predicate WF(s: Shape, h: nat)
    decreases h
  {
    if h == 0 then s.Nil? else
    NodeLike(s) && forall i :: 0 <= i < |s.kids| ==> WF(s.kids[i], h - 1)
  }

  lemma KidsAre(s: Shape, h: nat)
    requires WF(s, h) && h >= 2
    ensures forall i :: 0 <= i < |s.kids| ==> NodeLike(s.kids[i])
  {
  }

  // ---------- one node and a place in it ----------

  predicate Slot(nd: Shape, i: nat) {
    nd.Nd? && |nd.kids| == |nd.elems| + 1 && i < |nd.kids|
  }

  function Fill(nd: Shape, i: nat, s: Shape): Shape
    requires Slot(nd, i)
  {
    Nd(nd.ref, nd.kids[i := s], nd.elems)
  }

  ghost function PreL(ks: seq<Shape>, es: seq<Ptr>): seq<Ptr> {
    if ks == [] || es == [] then [] else Flat(ks[0]) + [es[0]] + PreL(ks[1..], es[1..])
  }

  ghost function PostL(ks: seq<Shape>, es: seq<Ptr>): seq<Ptr> {
    if ks == [] || es == [] then [] else [es[0]] + Flat(ks[0]) + PostL(ks[1..], es[1..])
  }

  /** The elements of a node to the left of its kid `i`. */
  ghost function Before(nd: Shape, i: nat): seq<Ptr>
    requires Slot(nd, i)
  {
    PreL(nd.kids[..i], nd.elems[..i])
  }

  /** The elements of a node to the right of its kid `i`. */
  ghost function After(nd: Shape, i: nat): seq<Ptr>
    requires Slot(nd, i)
  {
    PostL(nd.kids[i + 1..], nd.elems[i..])
  }

  lemma {:induction false} FlatHead(ks: seq<Shape>, es: seq<Ptr>)
    requires |ks| == |es| + 1
    ensures FlatL(ks, es) == Flat(ks[0]) + PostL(ks[1..], es)
  {
    if es != [] {
      FlatHead(ks[1..], es[1..]);
    }
  }

  lemma {:induction false} FlatSplit(ks: seq<Shape>, es: seq<Ptr>, i: nat)
    requires |ks| == |es| + 1 && i < |ks|
    ensures FlatL(ks, es) == PreL(ks[..i], es[..i]) + Flat(ks[i]) + PostL(ks[i + 1..], es[i..])
  {
    hide Flat, PostL;
    if i == 0 {
      FlatHead(ks, es);
    } else {
      FlatSplit(ks[1..], es[1..], i - 1);
      assert ks[..i][1..] == ks[1..][..i - 1] && es[..i][1..] == es[1..][..i - 1];
      assert ks[1..][i..] == ks[i + 1..] && es[1..][i - 1..] == es[i..];
    }
  }

  lemma FlatAt(nd: Shape, i: nat)
    requires Slot(nd, i)
    ensures Flat(nd) == Before(nd, i) + Flat(nd.kids[i]) + After(nd, i)
  {
    FlatSplit(nd.kids, nd.elems, i);
  }

  lemma AfterStep(nd: Shape, i: nat)
    requires Slot(nd, i) && i + 1 < |nd.kids|
    ensures After(nd, i) == [nd.elems[i]] + Flat(nd.kids[i + 1]) + After(nd, i + 1)
  {
    assert nd.kids[i + 1..][1..] == nd.kids[i + 2..] && nd.elems[i..][1..] == nd.elems[i + 1..];
  }

  lemma {:induction false} PreSnoc(ks: seq<Shape>, es: seq<Ptr>)
    requires |ks| == |es| > 0
    ensures var l := |ks| - 1; PreL(ks, es) == PreL(ks[..l], es[..l]) + Flat(ks[l]) + [es[l]]
  {
    var l := |ks| - 1;
    if l > 0 {
      PreSnoc(ks[1..], es[1..]);
      assert ks[1..][..l - 1] == ks[..l][1..] && es[1..][..l - 1] == es[..l][1..];
    }
  }

  lemma BeforeStep(nd: Shape, i: nat)
    requires Slot(nd, i) && i + 1 < |nd.kids|
    ensures Before(nd, i + 1) == Before(nd, i) + Flat(nd.kids[i]) + [nd.elems[i]]
  {
    PreSnoc(nd.kids[..i + 1], nd.elems[..i + 1]);
    assert nd.kids[..i + 1][..i] == nd.kids[..i] && nd.elems[..i + 1][..i] == nd.elems[..i];
  }

  lemma FillSame(nd: Shape, i: nat, s: Shape)
    requires Slot(nd, i)
    ensures Before(Fill(nd, i, s), i) == Before(nd, i) && After(Fill(nd, i, s), i) == After(nd, i)
    ensures Flat(Fill(nd, i, s)) == Before(nd, i) + Flat(s) + After(nd, i)
  {
    var nd' := Fill(nd, i, s);
    FlatAt(nd', i);
    assert nd'.kids[..i] == nd.kids[..i] && nd'.kids[i + 1..] == nd.kids[i + 1..];
  }

  /** Where the parts of a node lie in its element sequence. */
  lemma Offsets(s: Shape, i: nat)
    requires Slot(s, i)
    ensures |Before(s, 0)| == 0 && |Before(s, i)| + Size(s.kids[i]) <= Size(s)
    ensures i < |s.elems| ==>
      && |Before(s, i + 1)| == |Before(s, i)| + Size(s.kids[i]) + 1
      && |Before(s, i)| + Size(s.kids[i]) < Size(s)
      && Flat(s)[|Before(s, i)| + Size(s.kids[i])] == s.elems[i]
    ensures i == |s.elems| ==> |Before(s, i)| + Size(s.kids[i]) == Size(s)
  {
    FlatAt(s, i);
    if i < |s.elems| {
      BeforeStep(s, i);
      AfterStep(s, i);
    }
  }

  lemma KidOffset(s: Shape, i: nat, j: nat)
    requires Slot(s, i) && j < Size(s.kids[i])
    ensures |Before(s, i)| + j < Size(s) && Flat(s)[|Before(s, i)| + j] == Flat(s.kids[i])[j]
  {
    FlatAt(s, i);
  }

  // ---------- contexts ----------

  /** A path from a place in the tree to the root: `In(up, nd, i)` is the place of kid `i` of
      the node `nd`; what `nd.kids[i]` holds is immaterial. */
  datatype Ctx = Top | In(up: Ctx, nd: Shape, i: nat)

  function CtxRef(c: Ctx): Node? {
    if c.In? then RefOf(c.nd) else null
  }

  function TopRef(c: Ctx, r: Node?): Node? {
    if c.Top? then r else TopRef(c.up, RefOf(c.nd))
  }

  ghost predicate CtxOK(c: Ctx) {
    c.In? ==> Slot(c.nd, c.i) && CtxOK(c.up)
  }

  /** The elements of the tree to the left and to the right of the place. */
  ghost function Left(c: Ctx): seq<Ptr>
    requires CtxOK(c)
  {
    if c.Top? then [] else Left(c.up) + Before(c.nd, c.i)
  }

  ghost function Right(c: Ctx): seq<Ptr>
    requires CtxOK(c)
  {
    if c.Top? then [] else After(c.nd, c.i) + Right(c.up)
  }

  /** All the elements of the tree with `s` in the place. */
  ghost function Whole(c: Ctx, s: Shape): seq<Ptr>
    requires CtxOK(c)
  {
    Left(c) + Flat(s) + Right(c)
  }

  lemma WholeUp(c: Ctx, s: Shape)
    requires c.In? && CtxOK(c)
    ensures Whole(c.up, Fill(c.nd, c.i, s)) == Whole(c, s)
  {
    FillSame(c.nd, c.i, s);
  }

  lemma WholeDown(c: Ctx, s: Shape, i: nat)
    requires CtxOK(c) && Slot(s, i)
    ensures Whole(In(c, s, i), s.kids[i]) == Whole(c, s)
  {
    FlatAt(s, i);
  }

  ghost predicate WFCtx(c: Ctx, h: nat)
    ensures WFCtx(c, h) ==> CtxOK(c)
  {
    c.In? ==>
      && NodeLike(c.nd) && c.i < |c.nd.kids|
      && (forall j :: 0 <= j < |c.nd.kids| && j != c.i ==> WF(c.nd.kids[j], h))
      && WFCtx(c.up, h + 1)
  }

  ghost function CtxRefs(c: Ctx): set<Node>
    requires CtxOK(c)
  {
    if c.Top? then {} else
    {c.nd.ref} + RefsL(c.nd.kids[..c.i]) + RefsL(c.nd.kids[c.i + 1..]) + CtxRefs(c.up)
  }

  ghost predicate DistinctCtx(c: Ctx)
    requires CtxOK(c)
  {
    c.In? ==>
      var ls, rs := c.nd.kids[..c.i], c.nd.kids[c.i + 1..];
      && c.nd.ref !in RefsL(ls) && c.nd.ref !in RefsL(rs) && c.nd.ref !in CtxRefs(c.up)
      && RefsL(ls) !! RefsL(rs) !! CtxRefs(c.up)
      && DistinctL(ls) && DistinctL(rs) && DistinctCtx(c.up)
  }

  /** Going down to kid `i` of the subtree `s` keeps the two parts of the tree apart. */
  lemma DownApart(c: Ctx, s: Shape, i: nat)
    requires CtxOK(c) && DistinctCtx(c) && Distinct(s) && CtxRefs(c) !! Refs(s) && Slot(s, i)
    ensures var c', k := In(c, s, i), s.kids[i];
      && DistinctCtx(c') && Distinct(k) && CtxRefs(c') !! Refs(k)
      && CtxRefs(c') + Refs(k) == CtxRefs(c) + Refs(s)
  {
    DistinctAt(s.kids, i);
  }

  /** Going up from the subtree `s` to the node above keeps the two parts of the tree apart. */
  lemma UpApart(c: Ctx, s: Shape)
    requires c.In? && CtxOK(c) && DistinctCtx(c) && Distinct(s) && CtxRefs(c) !! Refs(s)
    ensures var nd := Fill(c.nd, c.i, s);
      && Distinct(nd) && CtxRefs(c.up) !! Refs(nd)
      && CtxRefs(c.up) + Refs(nd) == CtxRefs(c) + Refs(s)
      && nd.kids[..c.i] == c.nd.kids[..c.i] && nd.kids[c.i + 1..] == c.nd.kids[c.i + 1..]
  {
    var nd := Fill(c.nd, c.i, s);
    assert nd.kids[..c.i] == c.nd.kids[..c.i] && nd.kids[c.i + 1..] == c.nd.kids[c.i + 1..];
    DistinctAt(nd.kids, c.i);
  }
}
