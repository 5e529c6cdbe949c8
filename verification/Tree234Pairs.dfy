/** Rearranging two adjacent kids of a node and the element between them. */
module Tree234Pairs {
  import opened Tree234Shapes

  function Pair(s: Shape, i: nat, x: Shape, e: Ptr, y: Shape): Shape
    requires s.Nd? && i + 1 < |s.kids| && i < |s.elems|
  {
    Nd(s.ref, s.kids[i := x][i + 1 := y], s.elems[i := e])
  }

  function Without<T>(q: seq<T>, i: nat): seq<T>
    requires i < |q|
  {
    q[..i] + q[i + 1..]
  }

  function Joined(s: Shape, i: nat, m: Shape): Shape
    requires s.Nd? && i + 1 < |s.kids| && i < |s.elems|
  {
    Nd(s.ref, s.kids[..i] + [m] + s.kids[i + 2..], Without(s.elems, i))
  }

  lemma FlatPair(s: Shape, i: nat)
    requires Slot(s, i) && i < |s.elems|
    ensures Flat(s) == Before(s, i) + (Flat(s.kids[i]) + [s.elems[i]] + Flat(s.kids[i + 1])) + After(s, i + 1)
    ensures Before(s, i + 1) == Before(s, i) + Flat(s.kids[i]) + [s.elems[i]]
  {
    FlatAt(s, i);
    AfterStep(s, i);
    BeforeStep(s, i);
  }

  /** Moving elements between two neighbours, through the element between them. */
  lemma PairIs(s: Shape, h: nat, i: nat, x: Shape, e: Ptr, y: Shape)
    requires h >= 2 && WF(s, h) && Distinct(s) && i < |s.elems|
    requires WF(x, h - 1) && WF(y, h - 1) && Distinct(x) && Distinct(y) && Refs(x) !! Refs(y)
    requires Refs(x) + Refs(y) == Refs(s.kids[i]) + Refs(s.kids[i + 1])
    requires e != NULL && Flat(x) + [e] + Flat(y) == Flat(s.kids[i]) + [s.elems[i]] + Flat(s.kids[i + 1])
    ensures var s' := Pair(s, i, x, e, y);
      && WF(s', h) && Distinct(s') && Refs(s') == Refs(s) && Flat(s') == Flat(s)
      && Before(s', i) == Before(s, i) && |Before(s', i + 1)| == |Before(s, i)| + Size(x) + 1
      && |Before(s, i + 1)| == |Before(s, i)| + Size(s.kids[i]) + 1
      && s'.kids[..i] == s.kids[..i] && s'.kids[i + 2..] == s.kids[i + 2..]
  {
    var s' := Pair(s, i, x, e, y);
    assert s'.kids[..i] == s.kids[..i] && s'.kids[i + 2..] == s.kids[i + 2..];
    assert s'.elems[..i] == s.elems[..i] && s'.elems[i + 1..] == s.elems[i + 1..];
    assert Slot(s, i) && WF(s', h);
    hide WF;
    assert Distinct(s') && Refs(s') == Refs(s) by {
      hide Flat, Before;
      DistinctAt2(s.kids, i);
      DistinctAt2(s'.kids, i);
    }
    hide Distinct, Refs, Flat;
    FlatPair(s, i);
    FlatPair(s', i);
  }

  /** Melting two neighbours and the element between them into one node. */
  lemma JoinedIs(s: Shape, h: nat, i: nat, m: Shape)
    requires h >= 2 && WF(s, h) && Distinct(s) && i < |s.elems|
    requires WF(m, h - 1) && Distinct(m) && Refs(m) <= Refs(s.kids[i]) + Refs(s.kids[i + 1])
    requires Flat(m) == Flat(s.kids[i]) + [s.elems[i]] + Flat(s.kids[i + 1])
    ensures var s' := Joined(s, i, m);
      && Slot(s', i) && s'.kids[i] == m && Distinct(s') && Refs(s') <= Refs(s) && Flat(s') == Flat(s)
      && Before(s', i) == Before(s, i) && (|s.elems| >= 2 ==> WF(s', h))
      && s'.kids[..i] == s.kids[..i] && s'.kids[i + 1..] == s.kids[i + 2..]
  {
    hide Flat, FlatL, Before, Refs, RefsL, Distinct, DistinctL;
    var s' := Joined(s, i, m);
    assert s'.kids[..i] == s.kids[..i] && s'.kids[i + 1..] == s.kids[i + 2..];
    JoinedNodes(s, i, m);
    JoinedFlat(s, i, m);
  }

  lemma JoinedNodes(s: Shape, i: nat, m: Shape)
    requires NodeLike(s) && Distinct(s) && i < |s.elems|
    requires Distinct(m) && Refs(m) <= Refs(s.kids[i]) + Refs(s.kids[i + 1])
    ensures Distinct(Joined(s, i, m)) && Refs(Joined(s, i, m)) <= Refs(s)
  {
    hide Flat, FlatL;
    var s' := Joined(s, i, m);
    assert s'.kids[..i] == s.kids[..i] && s'.kids[i + 1..] == s.kids[i + 2..];
    DistinctAt2(s.kids, i);
    DistinctAt(s'.kids, i);
  }

  lemma JoinedFlat(s: Shape, i: nat, m: Shape)
    requires NodeLike(s) && i < |s.elems| && Flat(m) == Flat(s.kids[i]) + [s.elems[i]] + Flat(s.kids[i + 1])
    ensures Flat(Joined(s, i, m)) == Flat(s) && Before(Joined(s, i, m), i) == Before(s, i)
  {
    hide Flat, FlatL;
    var s' := Joined(s, i, m);
    assert s'.kids[..i] == s.kids[..i] && s'.kids[i + 1..] == s.kids[i + 2..];
    assert s'.elems[..i] == s.elems[..i] && s'.elems[i..] == s.elems[i + 1..];
    FlatPair(s, i);
    FlatAt(s', i);
  }

  /** The elements of two shapes side by side. */
  lemma FlatNd(r: Node, ks1: seq<Shape>, es1: seq<Ptr>, e: Ptr, ks2: seq<Shape>, es2: seq<Ptr>)
    requires |ks1| == |es1| + 1 && |ks2| == |es2| + 1
    ensures Flat(Nd(r, ks1 + ks2, es1 + [e] + es2)) == Flat(Nd(r, ks1, es1)) + [e] + Flat(Nd(r, ks2, es2))
  {
    FlatConcat(ks1, es1, e, ks2, es2);
  }

  lemma FlatRef(r: Node, q: Node, ks: seq<Shape>, es: seq<Ptr>)
    ensures Flat(Nd(r, ks, es)) == Flat(Nd(q, ks, es))
  {
  }

  // ---------- case 3a, left-handed ----------

  function LastMoved(x: Shape): Shape
    requires NodeLike(x) && |x.elems| >= 2
  {
    Nd(x.ref, x.kids[..|x.elems|], x.elems[..|x.elems| - 1])
  }

  function Prepended(y: Shape, k: Shape, e: Ptr): Shape
    requires y.Nd?
  {
    Nd(y.ref, [k] + y.kids, [e] + y.elems)
  }

  lemma FromLeftNodes(x: Shape, e: Ptr, y: Shape)
    requires NodeLike(x) && NodeLike(y) && Distinct(x) && Distinct(y) && Refs(x) !! Refs(y) && |x.elems| >= 2
    ensures var x', y' := LastMoved(x), Prepended(y, x.kids[|x.elems|], e);
      && Distinct(x') && Distinct(y') && Refs(x') !! Refs(y') && Refs(x') + Refs(y') == Refs(x) + Refs(y)
      && RefsL(x'.kids) <= Refs(x') && RefsL(y'.kids) <= Refs(y') && x'.ref in Refs(x') && y'.ref in Refs(y')
  {
    hide Flat, FlatL;
    var k, x' := x.kids[|x.elems|], LastMoved(x);
    assert x.kids == x'.kids + [k];
    DistinctConcat(x'.kids, [k]);
    DistinctConcat([k], y.kids);
  }

  lemma FromLeftFlat(x: Shape, e: Ptr, y: Shape)
    requires NodeLike(x) && NodeLike(y) && |x.elems| >= 2
    ensures var l := |x.elems|; var x', y', e' := LastMoved(x), Prepended(y, x.kids[l], e), x.elems[l - 1];
      Flat(x') + [e'] + Flat(y') == Flat(x) + [e] + Flat(y) && Size(x') < Size(x)
  {
    hide FlatL;
    var l := |x.elems|;
    var k, e', x' := x.kids[l], x.elems[l - 1], LastMoved(x);
    assert x.kids == x'.kids + [k] && x.elems == x'.elems + [e'] + [] && [e] + y.elems == [] + [e] + y.elems;
    FlatNd(x.ref, x'.kids, x'.elems, e', [k], []);
    FlatNd(y.ref, [k], [], e, y.kids, y.elems);
    FlatRef(x.ref, y.ref, [k], []);
  }

  lemma FromLeftIs(x: Shape, e: Ptr, y: Shape, h: nat)
    requires h >= 1 && WF(x, h) && WF(y, h) && Distinct(x) && Distinct(y) && Refs(x) !! Refs(y)
    requires |x.elems| >= 2 && |y.elems| == 1 && e != NULL
    ensures var l := |x.elems|; var x', y', e' := LastMoved(x), Prepended(y, x.kids[l], e), x.elems[l - 1];
      && WF(x', h) && WF(y', h) && Distinct(x') && Distinct(y') && Refs(x') !! Refs(y')
      && Refs(x') + Refs(y') == Refs(x) + Refs(y) && e' != NULL
      && RefsL(x'.kids) <= Refs(x') && RefsL(y'.kids) <= Refs(y') && x'.ref in Refs(x') && y'.ref in Refs(y')
      && Flat(x') + [e'] + Flat(y') == Flat(x) + [e] + Flat(y)
      && x.kids == x'.kids + [x.kids[l]] && Size(x') < Size(x)
  {
    hide Flat, FlatL, Refs, RefsL, Distinct, DistinctL;
    FromLeftNodes(x, e, y);
    FromLeftFlat(x, e, y);
  }

  // ---------- case 3a, right-handed ----------

  function FirstMoved(y: Shape): Shape
    requires NodeLike(y) && |y.elems| >= 2
  {
    Nd(y.ref, y.kids[1..], y.elems[1..])
  }

  function Appended(x: Shape, e: Ptr, k: Shape): Shape
    requires x.Nd?
  {
    Nd(x.ref, x.kids + [k], x.elems + [e])
  }

  lemma FromRightNodes(x: Shape, e: Ptr, y: Shape)
    requires NodeLike(x) && NodeLike(y) && Distinct(x) && Distinct(y) && Refs(x) !! Refs(y) && |y.elems| >= 2
    ensures var x', y' := Appended(x, e, y.kids[0]), FirstMoved(y);
      && Distinct(x') && Distinct(y') && Refs(x') !! Refs(y') && Refs(x') + Refs(y') == Refs(x) + Refs(y)
      && RefsL(x'.kids) <= Refs(x') && RefsL(y'.kids) <= Refs(y') && x'.ref in Refs(x') && y'.ref in Refs(y')
  {
    hide Flat, FlatL;
    var k, y' := y.kids[0], FirstMoved(y);
    assert y.kids == [k] + y'.kids;
    DistinctConcat([k], y'.kids);
    DistinctConcat(x.kids, [k]);
  }

  lemma FromRightFlat(x: Shape, e: Ptr, y: Shape)
    requires NodeLike(x) && NodeLike(y) && |y.elems| >= 2
    ensures var x', y', e' := Appended(x, e, y.kids[0]), FirstMoved(y), y.elems[0];
      Flat(x') + [e'] + Flat(y') == Flat(x) + [e] + Flat(y) && Size(x') > Size(x)
  {
    hide FlatL;
    var k, e', y' := y.kids[0], y.elems[0], FirstMoved(y);
    assert y.kids == [k] + y'.kids && y.elems == [] + [e'] + y'.elems && x.elems + [e] == x.elems + [e] + [];
    FlatNd(y.ref, [k], [], e', y'.kids, y'.elems);
    FlatNd(x.ref, x.kids, x.elems, e, [k], []);
    FlatRef(x.ref, y.ref, [k], []);
  }

  lemma FromRightIs(x: Shape, e: Ptr, y: Shape, h: nat)
    requires h >= 1 && WF(x, h) && WF(y, h) && Distinct(x) && Distinct(y) && Refs(x) !! Refs(y)
    requires |y.elems| >= 2 && |x.elems| == 1 && e != NULL
    ensures var x', y', e' := Appended(x, e, y.kids[0]), FirstMoved(y), y.elems[0];
      && WF(x', h) && WF(y', h) && Distinct(x') && Distinct(y') && Refs(x') !! Refs(y')
      && Refs(x') + Refs(y') == Refs(x) + Refs(y) && e' != NULL
      && RefsL(x'.kids) <= Refs(x') && RefsL(y'.kids) <= Refs(y') && x'.ref in Refs(x') && y'.ref in Refs(y')
      && Flat(x') + [e'] + Flat(y') == Flat(x) + [e] + Flat(y)
      && y.kids == [y.kids[0]] + y'.kids && Size(x') > Size(x)
  {
    hide Flat, FlatL, Refs, RefsL, Distinct, DistinctL;
    FromRightNodes(x, e, y);
    FromRightFlat(x, e, y);
  }

  // ---------- cases 3b and 2c ----------

  function Melted(r: Node, x: Shape, e: Ptr, y: Shape): Shape
    requires x.Nd? && y.Nd?
  {
    Nd(r, x.kids + y.kids, x.elems + [e] + y.elems)
  }

  lemma MeltedNodes(r: Node, x: Shape, e: Ptr, y: Shape)
    requires NodeLike(x) && NodeLike(y) && Distinct(x) && Distinct(y) && Refs(x) !! Refs(y)
      && (r == x.ref || r == y.ref)
    ensures var m := Melted(r, x, e, y);
      Distinct(m) && Refs(m) <= Refs(x) + Refs(y) && RefsL(m.kids) <= Refs(m) && r in Refs(m)
  {
    hide Flat, FlatL;
    DistinctConcat(x.kids, y.kids);
  }

  lemma MeltedFlat(r: Node, x: Shape, e: Ptr, y: Shape)
    requires NodeLike(x) && NodeLike(y)
    ensures Flat(Melted(r, x, e, y)) == Flat(x) + [e] + Flat(y)
  {
    hide FlatL;
    FlatNd(r, x.kids, x.elems, e, y.kids, y.elems);
    FlatRef(r, x.ref, x.kids, x.elems);
    FlatRef(r, y.ref, y.kids, y.elems);
  }

  lemma MeltedIs(r: Node, x: Shape, e: Ptr, y: Shape, h: nat)
    requires h >= 1 && WF(x, h) && WF(y, h) && Distinct(x) && Distinct(y) && Refs(x) !! Refs(y)
    requires |x.elems| == 1 && |y.elems| == 1 && e != NULL && (r == x.ref || r == y.ref)
    ensures var m := Melted(r, x, e, y);
      && WF(m, h) && Distinct(m) && Refs(m) <= Refs(x) + Refs(y) && Flat(m) == Flat(x) + [e] + Flat(y)
      && NodeLike(m) && |m.elems| == 3 && m.elems[1] == e && RefsL(m.kids) <= Refs(m) && r in Refs(m)
      && m == Nd(r, [x.kids[0], x.kids[1]] + y.kids, [x.elems[0], e] + y.elems)
      && m == Nd(r, (x.kids + [y.kids[0]]) + [y.kids[1]], (x.elems + [e]) + [y.elems[0]])
  {
    hide Flat, FlatL, Refs, RefsL, Distinct, DistinctL;
    assert x.kids == [x.kids[0], x.kids[1]] && x.elems == [x.elems[0]];
    assert y.kids == [y.kids[0], y.kids[1]] && y.elems == [y.elems[0]];
    MeltedNodes(r, x, e, y);
    MeltedFlat(r, x, e, y);
  }
}
