/** The four rearrangements of deletion on a whole node. */
module Tree234Cases {
  import opened Tree234Shapes
  import opened Tree234Nodes
  import opened Tree234Pairs
  import opened Tree234Moves

  /** Everything there is to know about two adjacent kids before they are rearranged. */
  lemma OpenPair(s: Shape, h: nat, i: nat)
    requires Good(s, h) && h >= 2 && i < |s.elems|
    ensures var x, y := s.kids[i], s.kids[i + 1];
      && NodeLike(s) && NodeLike(x) && NodeLike(y)
      && WF(s, h) && Distinct(s) && WF(x, h - 1) && WF(y, h - 1) && Distinct(x) && Distinct(y) && Rep(x) && Rep(y)
      && Good(x, h - 1) && Good(y, h - 1) && RefsL(x.kids) <= Refs(x) && RefsL(y.kids) <= Refs(y)
      && x.ref in Refs(x) && y.ref in Refs(y) && x.ref !in RefsL(x.kids) && y.ref !in RefsL(y.kids)
      && x.ref.parent == s.ref == y.ref.parent
      && RepL(s.kids[..i], s.ref) && RepL(s.kids[i + 2..], s.ref)
      && RefsL(s.kids[..i]) !! Refs(x) !! Refs(y) !! RefsL(s.kids[i + 2..])
      && Refs(s) == {s.ref} + RefsL(s.kids[..i]) + Refs(x) + Refs(y) + RefsL(s.kids[i + 2..])
      && RefsL(s.kids) == RefsL(s.kids[..i]) + Refs(x) + Refs(y) + RefsL(s.kids[i + 2..])
      && s.ref !in RefsL(s.kids)
      && Local(s, -1, null, 0) && s.ref.kids[i] == x.ref && s.ref.kids[i + 1] == y.ref
  {
    KidsAre(s, h);
    assert WF(s.kids[i], h - 1) && WF(s.kids[i + 1], h - 1);
    hide WF;
    DistinctAt2(s.kids, i);
    assert RepL(s.kids, s.ref) && Local(s, -1, null, 0) && Distinct(s);
    hide Distinct, DistinctL;
    RepAt2(s.kids, s.ref, i);
    hide Rep, RepL;
  }

  /** The last kid of a node is apart from the rest of it. */
  lemma LastKid(x: Shape, h: nat)
    requires Good(x, h) && h >= 1
    ensures NodeLike(x)
    ensures var l := |x.elems|; var k, ks, n := x.kids[l], x.kids[..l], x.ref;
      && Rep(k) && Distinct(k) && RepL(ks, n) && Local(x, -1, null, 0)
      && Refs(k) !! RefsL(ks) && n !in Refs(k) && n !in RefsL(ks) && Refs(k) <= RefsL(x.kids)
      && Refs(x) == {n} + Refs(k) + RefsL(ks)
      && |n.kids| == |n.counts| == 4 && |n.elems| == 3
      && n.kids[l] == RefOf(k) && n.counts[l] == Size(k) && n.elems[l - 1] == x.elems[l - 1] != NULL
      && (l < 3 ==> n.elems[l] == NULL) && (l == 3 ==> n.elems[1] != NULL)
      && (k.Nd? ==> k.ref in Refs(k))
  {
    var l := |x.elems|;
    RepAt(x.kids, x.ref, l);
    DistinctAt(x.kids, l);
  }

  /** The first kid of a node is apart from the rest of it. */
  lemma FirstKid(x: Shape, h: nat)
    requires Good(x, h) && h >= 1
    ensures NodeLike(x)
    ensures var k, ks, n := x.kids[0], x.kids[1..], x.ref;
      && Rep(k) && Distinct(k) && RepL(ks, n) && Local(x, -1, null, 0)
      && Refs(k) !! RefsL(ks) && n !in Refs(k) && n !in RefsL(ks) && Refs(k) <= RefsL(x.kids)
      && Refs(x) == {n} + Refs(k) + RefsL(ks)
      && |n.kids| == |n.counts| == 4 && |n.elems| == 3
      && n.kids[0] == RefOf(k) && n.counts[0] == Size(k) && n.elems[0] == x.elems[0] != NULL
      && (k.Nd? ==> k.ref in Refs(k))
  {
    assert x.kids != [] && x.kids[..0] == [];
    RepAt(x.kids, x.ref, 0);
    DistinctAt(x.kids, 0);
  }

  /** The two kids of a 2-node are apart. */
  lemma TwoKids(x: Shape, h: nat)
    requires Good(x, h) && h >= 1 && |x.elems| == 1
    ensures NodeLike(x) && |x.kids| == 2
    ensures var k, l, n := x.kids[0], x.kids[1], x.ref;
      && x.kids == [k, l] && x == Nd(n, [k, l], [x.elems[0]])
      && Rep(k) && Rep(l) && Distinct(k) && Distinct(l) && Local(x, -1, null, 0)
      && Refs(k) !! Refs(l) && n !in Refs(k) && n !in Refs(l) && RefsL(x.kids) == Refs(k) + Refs(l)
      && Refs(x) == {n} + Refs(k) + Refs(l)
      && |n.kids| == |n.counts| == 4 && |n.elems| == 3
      && n.kids[0] == RefOf(k) && n.counts[0] == Size(k) && n.elems[0] == x.elems[0] != NULL
      && n.kids[1] == RefOf(l) && n.counts[1] == Size(l)
      && (k.Nd? ==> k.ref in Refs(k)) && (l.Nd? ==> l.ref in Refs(l) && RefsL(l.kids) <= Refs(l))
  {
    var k, l := x.kids[0], x.kids[1];
    assert x.kids == [k, l] && x.elems == [x.elems[0]];
    assert x.kids[..0] == [] && x.kids[1..] == [l] && x.kids[2..] == [] && x.kids[..1] == [k];
    RepAt2(x.kids, x.ref, 0);
    DistinctAt2(x.kids, 0);
  }

  /** Recounts kid `j` of `n`. */
  method Recount(n: Node, j: nat, ghost k: Shape)
    requires |n.kids| == |n.counts| == 4 && j < 4 && NodeLike(k) && Rep(k)
    requires n.kids[j] == k.ref && n != k.ref
    modifies n`counts
    ensures n.counts == old(n.counts)[j := Size(k)]
  {
    CountIs(k);
    var c := CountNode234(n.kids[j]);
    n.counts := n.counts[j := c];
  }

  /** The two neighbours of case 3a, left-handed: the last kid of `sib` becomes the first of `sub`,
      `elem` comes down between them and the last element of `sib` goes up. */
  method ShiftRight(sib: Node, sub: Node, elem: Ptr, ghost x: Shape, ghost y: Shape, ghost h: nat) returns (up: Ptr)
    requires Good(x, h) && Good(y, h) && h >= 1 && x.ref == sib && y.ref == sub && Refs(x) !! Refs(y)
    requires |x.elems| >= 2 && |y.elems| == 1
    modifies Refs(x)`kids, Refs(x)`counts, Refs(x)`elems, RefsL(x.kids)`parent
    modifies {sub}`kids, {sub}`counts, {sub}`elems
    ensures var l := |x.elems|;
      Rep(LastMoved(x)) && Rep(Prepended(y, x.kids[l], elem)) && up == x.elems[l - 1]
  {
    hide Good, Rep, RepL, Refs, RefsL, Distinct, DistinctL, WF, Flat, FlatL, Local;
    LastKid(x, h);
    IsGood(y, h);
    var lastelem := if sib.elems[2] != NULL then 2 else if sib.elems[1] != NULL then 1 else 0;
    ghost var k, ks := x.kids[|x.elems|], x.kids[..|x.elems|];
    up := sib.elems[lastelem];
    assert allocated(Refs(x)) && allocated(Refs(y));
    PushFront(sub, sib.kids[lastelem + 1], sib.counts[lastelem + 1], elem, y, k);
    PrependedRefs(y, k, elem);
    DropLast(sib, lastelem, x);
  }

  lemma PrependedRefs(y: Shape, k: Shape, e: Ptr)
    requires y.Nd?
    ensures Refs(Prepended(y, k, e)) == Refs(y) + Refs(k)
    ensures RefsL(Prepended(y, k, e).kids) == RefsL(y.kids) + Refs(k)
  {
    assert ([k] + y.kids)[1..] == y.kids;
  }

  lemma IsGood(s: Shape, h: nat)
    requires Good(s, h) && h >= 1
    ensures NodeLike(s) && WF(s, h) && Distinct(s) && Rep(s) && Local(s, -1, null, 0) && s.ref in Refs(s)
      && RefsL(s.kids) <= Refs(s)
    ensures s.ref !in RefsL(s.kids)
  {
  }

  /** Rewriting two neighbours and the element between them, in the fields of the node above. */
  lemma FieldsPair(s: Shape, i: nat, x: Shape, e: Ptr, y: Shape, K: seq<Node?>, C: seq<int>, E: seq<Ptr>)
    requires NodeLike(s) && i < |s.elems| && x.Nd? && y.Nd? && s.kids[i].Nd? && s.kids[i + 1].Nd?
    requires x.ref == s.kids[i].ref && y.ref == s.kids[i + 1].ref
    requires Fields(s, -1, null, 0, K, C, E)
    ensures Fields(Pair(s, i, x, e, y), -1, null, 0, K, C[i := Size(x)][i + 1 := Size(y)], E[i := e])
    ensures |K| == 4 && |C| == 4 && |E| == 3 && i < 3
    ensures K[i] == x.ref && K[i + 1] == y.ref && C[i] == Size(s.kids[i]) && C[i + 1] == Size(s.kids[i + 1])
    ensures E[i] == s.elems[i]
  {
  }

  /** Closing a node again after its two neighbours were rewritten. */
  lemma ClosePair(s: Shape, h: nat, i: nat)
    requires WF(s, h) && Distinct(s) && h >= 2 && i < |s.elems| && Local(s, -1, null, 0)
    requires var x, y := s.kids[i], s.kids[i + 1];
      && x.Nd? && y.Nd? && Rep(x) && Rep(y) && x.ref.parent == s.ref == y.ref.parent
      && RepL(s.kids[..i], s.ref) && RepL(s.kids[i + 2..], s.ref)
    ensures Good(s, h)
  {
    RepAt2(s.kids, s.ref, i);
  }

  method Case3aLeft(n: Node, ki: nat, index0: int, ghost s: Shape, ghost h: nat) returns (index: int, ghost s': Shape)
    requires NodeLike(s) && Good(s, h) && h >= 2 && s.ref == n && 0 < ki < |s.kids|
    requires NodeLike(s.kids[ki]) && |s.kids[ki].elems| == 1
    requires NodeLike(s.kids[ki - 1]) && |s.kids[ki - 1].elems| >= 2
    modifies Refs(s)`kids, Refs(s)`counts, Refs(s)`elems, RefsL(s.kids)`parent
    ensures Good(s', h) && s'.Nd? && s'.ref == n && Refs(s') == Refs(s) && Flat(s') == Flat(s)
    ensures Slot(s', ki) && NodeLike(s'.kids[ki]) && |s'.kids[ki].elems| == 2 && s'.kids[ki].ref == s.kids[ki].ref
    ensures |s'.kids| == |s.kids| && index + |Before(s', ki)| == index0 + |Before(s, ki)|
    ensures index0 <= index && index - index0 == Size(s'.kids[ki]) - Size(s.kids[ki])
  {
    hide Good, Rep, RepL, Refs, RefsL, Distinct, DistinctL, WF, Flat, FlatL, Fields, Before;
    ghost var i, x, y := ki - 1, s.kids[ki - 1], s.kids[ki];
    OpenPair(s, h, i);
    FromLeftIs(x, s.elems[i], y, h - 1);
    ghost var x', e', y' := LastMoved(x), x.elems[|x.elems| - 1], Prepended(y, x.kids[|x.elems|], s.elems[i]);
    PairIs(s, h, i, x', e', y');
    s' := Pair(s, i, x', e', y');
    FieldsPair(s, i, x', e', y', n.kids, n.counts, n.elems);
    ghost var C := n.counts;
    assert allocated(Refs(s));
    var up := ShiftRight(n.kids[ki - 1], n.kids[ki], n.elems[ki - 1], x, y, h - 1);
    n.elems := n.elems[ki - 1 := up];
    Recount(n, ki, y');
    index := index0 + n.counts[ki - 1];
    Recount(n, ki - 1, x');
    index := index - n.counts[ki - 1];
    assert n.counts == C[i := Size(x')][ki := Size(y')];
    ClosePair(s', h, i);
  }

  lemma AppendedRefs(x: Shape, k: Shape, e: Ptr)
    requires x.Nd?
    ensures Refs(Appended(x, e, k)) == Refs(x) + Refs(k)
    ensures RefsL(Appended(x, e, k).kids) == RefsL(x.kids) + Refs(k)
    ensures Distinct(Appended(x, e, k)) <==> Distinct(x) && Distinct(k) && Refs(k) !! Refs(x)
  {
    DistinctConcat(x.kids, [k]);
  }

  /** The two neighbours of case 3a, right-handed: `elem` comes down behind `sub`, followed by the
      first kid of `sib`, whose first element goes up. */
  method ShiftLeft(sub: Node, sib: Node, elem: Ptr, ghost x: Shape, ghost y: Shape, ghost h: nat) returns (up: Ptr)
    requires Good(x, h) && Good(y, h) && h >= 1 && x.ref == sub && y.ref == sib && Refs(x) !! Refs(y)
    requires |x.elems| == 1 && |y.elems| >= 2
    modifies {sub}`kids, {sub}`counts, {sub}`elems
    modifies Refs(y)`kids, Refs(y)`counts, Refs(y)`elems, RefsL(y.kids)`parent
    ensures Rep(Appended(x, elem, y.kids[0])) && Rep(FirstMoved(y)) && up == y.elems[0]
  {
    hide Good, Rep, RepL, Refs, RefsL, Distinct, DistinctL, WF, Flat, FlatL, Fields;
    IsGood(x, h);
    FirstKid(y, h);
    ghost var k := y.kids[0];
    up := sib.elems[0];
    assert allocated(Refs(x)) && allocated(Refs(y));
    PushBack(sub, 1, sib.kids[0], sib.counts[0], elem, x, k);
    AppendedRefs(x, k, elem);
    DropFirst(sib, y);
  }

  method Case3aRight(n: Node, ki: nat, ghost s: Shape, ghost h: nat) returns (ghost s': Shape)
    requires NodeLike(s) && Good(s, h) && h >= 2 && s.ref == n && ki < |s.elems|
    requires NodeLike(s.kids[ki]) && |s.kids[ki].elems| == 1
    requires NodeLike(s.kids[ki + 1]) && |s.kids[ki + 1].elems| >= 2
    modifies Refs(s)`kids, Refs(s)`counts, Refs(s)`elems, RefsL(s.kids)`parent
    ensures Good(s', h) && s'.Nd? && s'.ref == n && Refs(s') == Refs(s) && Flat(s') == Flat(s)
    ensures Slot(s', ki) && NodeLike(s'.kids[ki]) && |s'.kids[ki].elems| == 2 && s'.kids[ki].ref == s.kids[ki].ref
    ensures |s'.kids| == |s.kids| && Before(s', ki) == Before(s, ki) && Size(s'.kids[ki]) > Size(s.kids[ki])
  {
    hide Good, Rep, RepL, Refs, RefsL, Distinct, DistinctL, WF, Flat, FlatL, Fields, Before;
    ghost var x, y := s.kids[ki], s.kids[ki + 1];
    OpenPair(s, h, ki);
    FromRightIs(x, s.elems[ki], y, h - 1);
    ghost var x', e', y' := Appended(x, s.elems[ki], y.kids[0]), y.elems[0], FirstMoved(y);
    PairIs(s, h, ki, x', e', y');
    s' := Pair(s, ki, x', e', y');
    FieldsPair(s, ki, x', e', y', n.kids, n.counts, n.elems);
    assert allocated(Refs(s));
    var up := ShiftLeft(n.kids[ki], n.kids[ki + 1], n.elems[ki], x, y, h - 1);
    n.elems := n.elems[ki := up];
    Recount(n, ki, x');
    Recount(n, ki + 1, y');
    ClosePair(s', h, ki);
  }

  /** Two neighbours melt into `m`, in the fields of the node above: first the count, then the slot. */
  lemma FieldsJoined(s: Shape, i: nat, j: nat, m: Shape, K: seq<Node?>, C: seq<int>, E: seq<Ptr>)
    requires NodeLike(s) && i < |s.elems| && i <= j <= i + 1 && m.Nd? && s.kids[i].Nd? && s.kids[i + 1].Nd?
    requires m.ref == s.kids[j].ref && Fields(s, -1, null, 0, K, C, E)
    ensures Fields(Nd(s.ref, s.kids[j := m], s.elems), -1, null, 0, K, C[j := Size(m)], E)
    ensures |K| == 4 && |C| == 4 && |E| == 3 && i < 3
    ensures K[i] == s.kids[i].ref && K[i + 1] == s.kids[i + 1].ref && E[i] == s.elems[i]
    ensures Joined(s, i, m) == Nd(s.ref, Without(s.kids[j := m], if i == j then i + 1 else i), Without(s.elems, i))
  {
    OneForTwo(s.kids, i, m);
  }

  /** Overwriting one of two neighbours and dropping the other, either way. */
  lemma OneForTwo(ks: seq<Shape>, i: nat, m: Shape)
    requires i + 1 < |ks|
    ensures Without(ks[i := m], i + 1) == ks[..i] + [m] + ks[i + 2..]
    ensures Without(ks[i + 1 := m], i) == ks[..i] + [m] + ks[i + 2..]
  {
    assert ks[i := m][..i + 1] == ks[..i] + [m] && ks[i := m][i + 2..] == ks[i + 2..];
    assert ks[i + 1 := m][..i] == ks[..i] && ks[i + 1 := m][i + 1..] == [m] + ks[i + 2..];
  }

  /** Closing a node again after two neighbours were melted; the node may have lost its last element. */
  lemma CloseJoined(s: Shape, h: nat, i: nat, m: Shape)
    requires s.Nd? && i < |s.kids| && s.kids[i] == m && m.Nd? && Local(s, -1, null, 0)
    requires Rep(m) && m.ref.parent == s.ref && RepL(s.kids[..i], s.ref) && RepL(s.kids[i + 1..], s.ref)
    ensures Rep(s)
  {
    RepAt(s.kids, s.ref, i);
  }

  /** What case 3b and case 2c leave: the kids `i` and `i+1` have become one kid `m` with three
      elements, and `s` has lost the element between them, perhaps its only one. */
  ghost predicate Merged(s: Shape, h: nat, i: nat, m: Shape, s': Shape)
    requires NodeLike(s) && i < |s.elems| && h >= 1
    reads Refs(s')`kids, Refs(s')`counts, Refs(s')`elems, Refs(s')`parent
  {
    && Slot(s', i) && s'.ref == s.ref && s'.elems == Without(s.elems, i) && s'.kids[i] == m
    && NodeLike(m) && |m.elems| == 3 && m.elems[1] == s.elems[i] && WF(m, h - 1) && Distinct(m) && Distinct(s')
    && Refs(s') <= Refs(s) && Flat(s') == Flat(s) && Before(s', i) == Before(s, i)
    && Flat(m) == Flat(s.kids[i]) + [s.elems[i]] + Flat(s.kids[i + 1])
    && Rep(s') && (|s.elems| >= 2 ==> WF(s', h))
  }

  /** Kid `ki` melts into the kid behind it; the node above only gets the new count yet. */
  method MeltInto(n: Node, ki: nat, ghost s: Shape, ghost h: nat) returns (ghost m: Shape)
    requires NodeLike(s) && Good(s, h) && h >= 2 && s.ref == n && ki < |s.elems|
    requires NodeLike(s.kids[ki]) && |s.kids[ki].elems| == 1
    requires NodeLike(s.kids[ki + 1]) && |s.kids[ki + 1].elems| == 1
    modifies Refs(s.kids[ki + 1])`kids, Refs(s.kids[ki + 1])`counts, Refs(s.kids[ki + 1])`elems
    modifies RefsL(s.kids[ki].kids)`parent, {n}`counts
    ensures m == Melted(s.kids[ki + 1].ref, s.kids[ki], s.elems[ki], s.kids[ki + 1]) && Rep(m) && m.ref.parent == n
    ensures Local(Nd(n, s.kids[ki + 1 := m], s.elems), -1, null, 0)
    ensures RepL(s.kids[..ki], n) && RepL(s.kids[ki + 2..], n)
  {
    hide Good, Rep, RepL, Refs, RefsL, Distinct, DistinctL, WF, Flat, FlatL, Fields, Before;
    ghost var x, y, e := s.kids[ki], s.kids[ki + 1], s.elems[ki];
    OpenPair(s, h, ki);
    TwoKids(x, h - 1);
    IsGood(y, h - 1);
    m := Melted(y.ref, x, e, y);
    MeltedIs(y.ref, x, e, y, h - 1);
    FieldsJoined(s, ki, ki + 1, m, n.kids, n.counts, n.elems);
    assert allocated(Refs(s));
    var sib, sub := n.kids[ki], n.kids[ki + 1];
    MergeFront(sub, sib, n.elems[ki], y, x.kids[0], x.kids[1], x.elems[0]);
    Recount(n, ki + 1, m);
  }

  method Case3b(n: Node, ki: nat, ghost s: Shape, ghost h: nat) returns (ghost m: Shape, ghost s': Shape)
    requires NodeLike(s) && Good(s, h) && h >= 2 && s.ref == n && ki < |s.elems|
    requires NodeLike(s.kids[ki]) && |s.kids[ki].elems| == 1
    requires NodeLike(s.kids[ki + 1]) && |s.kids[ki + 1].elems| == 1
    modifies Refs(s)`kids, Refs(s)`counts, Refs(s)`elems, RefsL(s.kids)`parent
    ensures Merged(s, h, ki, m, s') && m.ref == s.kids[ki + 1].ref
  {
    hide Good, Rep, RepL, Refs, RefsL, Distinct, DistinctL, WF, Flat, FlatL, Fields, Before, Melted;
    ghost var x, y, e := s.kids[ki], s.kids[ki + 1], s.elems[ki];
    OpenPair(s, h, ki);
    assert allocated(Refs(s));
    KidsAre(s, h);
    m := MeltInto(n, ki, s, h);
    MeltedIs(y.ref, x, e, y, h - 1);
    JoinedIs(s, h, ki, m);
    s' := Joined(s, ki, m);
    OneForTwo(s.kids, ki, m);
    RemoveKid(n, ki, Nd(n, s.kids[ki + 1 := m], s.elems));
    CloseJoined(s', h, ki, m);
  }

  /** The neighbours of case 2c: `elem` and then all of `b` go behind `a`. */
  method MeltBack(a: Node, b: Node, elem: Ptr, ghost x: Shape, ghost y: Shape, ghost h: nat)
    requires Good(x, h) && Good(y, h) && h >= 1 && x.ref == a && y.ref == b && Refs(x) !! Refs(y)
    requires |x.elems| == 1 && |y.elems| == 1 && elem != NULL
    modifies {a}`kids, {a}`counts, {a}`elems, RefsL(y.kids)`parent
    ensures Rep(Melted(a, x, elem, y))
  {
    hide Good, Rep, RepL, Refs, RefsL, Distinct, DistinctL, WF, Flat, FlatL, Fields;
    IsGood(x, h);
    IsGood(y, h);
    TwoKids(x, h);
    TwoKids(y, h);
    MeltedIs(a, x, elem, y, h);
    AppendedRefs(x, y.kids[0], elem);
    assert allocated(Refs(x)) && allocated(Refs(y));
    PushBack(a, 1, b.kids[0], b.counts[0], elem, x, y.kids[0]);
    PushBack(a, 2, b.kids[1], b.counts[1], b.elems[0], Appended(x, elem, y.kids[0]), y.kids[1]);
  }

  method Case2c(n: Node, ei: nat, ghost s: Shape, ghost h: nat) returns (ghost m: Shape, ghost s': Shape)
    requires NodeLike(s) && Good(s, h) && h >= 2 && s.ref == n && ei < |s.elems|
    requires NodeLike(s.kids[ei]) && |s.kids[ei].elems| == 1
    requires NodeLike(s.kids[ei + 1]) && |s.kids[ei + 1].elems| == 1
    modifies Refs(s)`kids, Refs(s)`counts, Refs(s)`elems, RefsL(s.kids)`parent
    ensures Merged(s, h, ei, m, s') && m.ref == s.kids[ei].ref
    ensures Size(m.kids[0]) == Size(s.kids[ei].kids[0]) && Size(m.kids[1]) == Size(s.kids[ei].kids[1])
  {
    hide Good, Rep, RepL, Refs, RefsL, Distinct, DistinctL, WF, Flat, FlatL, Fields, Before;
    ghost var x, y, e := s.kids[ei], s.kids[ei + 1], s.elems[ei];
    OpenPair(s, h, ei);
    TwoKids(x, h - 1);
    m := Melted(x.ref, x, e, y);
    MeltedIs(x.ref, x, e, y, h - 1);
    JoinedIs(s, h, ei, m);
    s' := Joined(s, ei, m);
    FieldsJoined(s, ei, ei, m, n.kids, n.counts, n.elems);
    assert allocated(Refs(s));
    MeltBack(n.kids[ei], n.kids[ei + 1], n.elems[ei], x, y, h - 1);
    Recount(n, ei, m);
    RemoveKidAfter(n, ei, Nd(n, s.kids[ei := m], s.elems));
    CloseJoined(s', h, ei, m);
  }
}
