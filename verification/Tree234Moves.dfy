/** The pointer surgery of deletion, one node at a time: what each block of assignments does to
    the shape that a node represents. */
module Tree234Moves {
  import opened Tree234Shapes
  import opened Tree234Nodes
  import opened Tree234Pairs

  ghost function Ptrs(n: Node?): set<Node> { if n == null then {} else {n} }

  /** A 2-node takes one more kid and element at the front (case 3a, left-handed). */
  method PushFront(sub: Node, kid: Node?, count: int, elem: Ptr, ghost s: Shape, ghost k: Shape)
    requires s.Nd? && s.ref == sub && |s.elems| == 1 && |s.kids| == 2 && Rep(s) && Distinct(s)
    requires kid == RefOf(k) && count == Size(k) && Rep(k) && Distinct(k) && Refs(s) !! Refs(k)
    modifies sub`kids, sub`counts, sub`elems, Ptrs(kid)`parent
    ensures Rep(Nd(sub, [k] + s.kids, [elem] + s.elems))
  {
    ghost var s' := Nd(sub, [k] + s.kids, [elem] + s.elems);
    sub.kids := sub.kids[2 := sub.kids[1]][1 := sub.kids[0]][0 := kid];
    sub.counts := sub.counts[2 := sub.counts[1]][1 := sub.counts[0]][0 := count];
    sub.elems := sub.elems[1 := sub.elems[0]][0 := elem];
    if sub.kids[0] != null { sub.kids[0].parent := sub; }
    assert RepL(s'.kids, sub) by {
      assert s'.kids[1..] == s.kids;
      assert Rep(k) && RepL(s.kids, sub);
    }
    assert Local(s', -1, null, 0);
  }

  /** A node takes one more kid and element at the back (case 3a right-handed, case 2c). */
  method PushBack(sub: Node, pos: nat, kid: Node?, count: int, elem: Ptr, ghost s: Shape, ghost k: Shape)
    requires s.Nd? && s.ref == sub && |s.elems| == pos < 3 && |s.kids| == pos + 1 && Rep(s) && Distinct(s)
    requires kid == RefOf(k) && count == Size(k) && Rep(k) && Distinct(k) && Refs(s) !! Refs(k)
    modifies sub`kids, sub`counts, sub`elems, Ptrs(kid)`parent
    ensures Rep(Nd(sub, s.kids + [k], s.elems + [elem]))
  {
    ghost var s' := Nd(sub, s.kids + [k], s.elems + [elem]);
    sub.elems := sub.elems[pos := elem];
    sub.kids := sub.kids[pos + 1 := kid];
    sub.counts := sub.counts[pos + 1 := count];
    if sub.kids[pos + 1] != null { sub.kids[pos + 1].parent := sub; }
    assert RepL(s'.kids, sub) by {
      assert Rep(k) && RepL(s.kids, sub) && RepL([k], sub);
      RepConcat(s.kids, [k], sub);
    }
    assert Local(s', -1, null, 0);
  }

  /** A node gives up its last kid and element. */
  method DropLast(sib: Node, last: nat, ghost s: Shape)
    requires NodeLike(s) && s.ref == sib && |s.elems| == last + 1 && Local(s, -1, null, 0)
    requires RepL(s.kids[..last + 1], sib) && sib !in RefsL(s.kids[..last + 1])
    modifies sib`kids, sib`counts, sib`elems
    ensures Rep(Nd(sib, s.kids[..last + 1], s.elems[..last]))
  {
    sib.kids := sib.kids[last + 1 := null];
    sib.counts := sib.counts[last + 1 := 0];
    sib.elems := sib.elems[last := NULL];
  }

  /** A node gives up its first kid and element. */
  method DropFirst(sib: Node, ghost s: Shape)
    requires NodeLike(s) && s.ref == sib && |s.elems| >= 2 && Local(s, -1, null, 0)
    requires RepL(s.kids[1..], sib) && sib !in RefsL(s.kids[1..])
    modifies sib`kids, sib`counts, sib`elems
    ensures Rep(Nd(sib, s.kids[1..], s.elems[1..]))
  {
    ghost var ks, K, C, E := s.kids[1..], sib.kids, sib.counts, sib.elems;
    assert forall i :: 0 <= i < 3 ==> (E[i] != NULL <==> i < |s.elems|);
    sib.kids := sib.kids[0 := sib.kids[1]];
    sib.counts := sib.counts[0 := sib.counts[1]];
    var j := 0;
    while j < 2 && sib.elems[j + 1] != NULL
      invariant 0 <= j < |s.elems| && |sib.kids| == |sib.counts| == 4 && |sib.elems| == 3
      invariant forall i {:trigger sib.kids[i]} :: 0 <= i < 4 ==> sib.kids[i] == if i <= j then K[i + 1] else K[i]
      invariant forall i {:trigger sib.counts[i]} :: 0 <= i < 4 ==> sib.counts[i] == if i <= j then C[i + 1] else C[i]
      invariant forall i {:trigger sib.elems[i]} :: 0 <= i < 3 ==> sib.elems[i] == if i < j then E[i + 1] else E[i]
      invariant RepL(ks, sib)
    {
      sib.kids := sib.kids[j + 1 := sib.kids[j + 2]];
      sib.counts := sib.counts[j + 1 := sib.counts[j + 2]];
      sib.elems := sib.elems[j := sib.elems[j + 1]];
      j := j + 1;
    }
    assert j == |s.elems| - 1;
    sib.kids := sib.kids[j + 1 := null];
    sib.counts := sib.counts[j + 1 := 0];
    sib.elems := sib.elems[j := NULL];
    assert RepL(ks, sib);
    assert Local(Nd(sib, ks, s.elems[1..]), -1, null, 0);
  }

  /** The 2-node `sub` takes two kids and two elements at the front (case 3b): its own fields ... */
  method MergeFields(sub: Node, sib: Node, elem: Ptr, ghost s: Shape, ghost x: Shape)
    requires s.Nd? && s.ref == sub && |s.elems| == 1 && |s.kids| == 2 && Local(s, -1, null, 0)
    requires x.Nd? && x.ref == sib && |x.elems| == 1 && |x.kids| == 2 && Local(x, -1, null, 0)
    requires sub != sib
    modifies sub`kids, sub`counts, sub`elems
    ensures Local(Nd(sub, x.kids + s.kids, x.elems + [elem] + s.elems), -1, null, 0)
  {
    sub.kids := sub.kids[3 := sub.kids[1]][2 := sub.kids[0]][1 := sib.kids[1]][0 := sib.kids[0]];
    sub.counts := sub.counts[3 := sub.counts[1]][2 := sub.counts[0]][1 := sib.counts[1]][0 := sib.counts[0]];
    sub.elems := sub.elems[2 := sub.elems[0]][1 := elem][0 := sib.elems[0]];
  }

  /** ... and the parent fields of the two kids. */
  method MergeFront(sub: Node, sib: Node, elem: Ptr, ghost s: Shape, ghost a: Shape, ghost b: Shape, ghost e: Ptr)
    requires s.Nd? && s.ref == sub && |s.elems| == 1 && |s.kids| == 2 && Rep(s) && Distinct(s)
    requires Local(Nd(sib, [a, b], [e]), -1, null, 0)
    requires Rep(a) && Rep(b) && Refs(s) !! Refs(a) !! Refs(b) && sib !in Refs(s) + Refs(a) + Refs(b)
    requires Distinct(a) && Distinct(b)
    modifies sub`kids, sub`counts, sub`elems, Ptrs(RefOf(a))`parent, Ptrs(RefOf(b))`parent
    ensures Rep(Nd(sub, [a, b] + s.kids, [e, elem] + s.elems))
  {
    ghost var s' := Nd(sub, [a, b] + s.kids, [e, elem] + s.elems);
    assert [a, b] + s.kids == Nd(sib, [a, b], [e]).kids + s.kids && [e] + [elem] + s.elems == s'.elems;
    assert allocated(Refs(s)) && allocated(Refs(a)) && allocated(Refs(b));
    MergeFields(sub, sib, elem, s, Nd(sib, [a, b], [e]));
    assert Rep(a) && Rep(b) && RepL(s.kids, sub) by { hide Rep, RepL, Local; }
    if sub.kids[1] != null { sub.kids[1].parent := sub; }
    if sub.kids[0] != null { sub.kids[0].parent := sub; }
    assert Rep(a) && Rep(b) && RepL(s.kids, sub) by { hide Rep, RepL, Local; }
    assert [a, b][1..] == [b] && RepL([b], sub);
    RepConcat([a, b], s.kids, sub);
  }


  /** A node loses kid `ki` and the element after it (end of case 3b). */
  method RemoveKid(n: Node, ki: nat, ghost s: Shape)
    requires s.Nd? && s.ref == n && 1 <= |s.elems| <= 3 && |s.kids| == |s.elems| + 1 && ki < |s.elems|
    requires Local(s, -1, null, 0) && forall i :: 0 <= i < |s.kids| ==> s.kids[i].Nd?
    modifies n`kids, n`counts, n`elems
    ensures Local(Nd(n, Without(s.kids, ki), Without(s.elems, ki)), -1, null, 0)
  {
    ghost var K, C, E := n.kids, n.counts, n.elems;
    assert forall i {:trigger K[i]} :: 0 <= i < 4 ==> (K[i] != null <==> i < |s.kids|);
    assert forall i {:trigger E[i]} :: |s.elems| <= i < 3 ==> E[i] == NULL;
    var j := ki;
    while j < 3 && n.kids[j + 1] != null
      invariant ki <= j < |s.kids| && |n.kids| == |n.counts| == 4 && |n.elems| == 3
      invariant forall i {:trigger n.kids[i]} :: 0 <= i < 4 ==> n.kids[i] == if ki <= i < j then K[i + 1] else K[i]
      invariant forall i {:trigger n.counts[i]} :: 0 <= i < 4 ==> n.counts[i] == if ki <= i < j then C[i + 1] else C[i]
      invariant forall i {:trigger n.elems[i]} :: 0 <= i < 3 ==>
        n.elems[i] == if ki <= i < j then (if i < 2 then E[i + 1] else NULL) else E[i]
    {
      n.kids := n.kids[j := n.kids[j + 1]];
      n.counts := n.counts[j := n.counts[j + 1]];
      n.elems := n.elems[j := if j < 2 then n.elems[j + 1] else NULL];
      j := j + 1;
    }
    assert j == |s.kids| - 1;
    n.kids := n.kids[j := null];
    n.counts := n.counts[j := 0];
    if j < 3 { n.elems := n.elems[j := NULL]; }
  }

  /** A node loses element `ei` and the kid after it (end of case 2c). */
  method RemoveKidAfter(n: Node, ei: nat, ghost s: Shape)
    requires NodeLike(s) && s.ref == n && ei < |s.elems| && Local(s, -1, null, 0)
    modifies n`kids, n`counts, n`elems
    ensures Local(Nd(n, Without(s.kids, ei + 1), Without(s.elems, ei)), -1, null, 0)
  {
    ghost var K, C, E := n.kids, n.counts, n.elems;
    assert forall i {:trigger E[i]} :: 0 <= i < 3 ==> (E[i] != NULL <==> i < |s.elems|);
    var j := ei;
    while j < 2 && n.elems[j + 1] != NULL
      invariant ei <= j < |s.elems| && |n.kids| == |n.counts| == 4 && |n.elems| == 3
      invariant forall i {:trigger n.kids[i]} :: 0 <= i < 4 ==> n.kids[i] == if ei < i <= j then K[i + 1] else K[i]
      invariant forall i {:trigger n.counts[i]} :: 0 <= i < 4 ==> n.counts[i] == if ei < i <= j then C[i + 1] else C[i]
      invariant forall i {:trigger n.elems[i]} :: 0 <= i < 3 ==> n.elems[i] == if ei <= i < j then E[i + 1] else E[i]
    {
      n.elems := n.elems[j := n.elems[j + 1]];
      n.kids := n.kids[j + 1 := n.kids[j + 2]];
      n.counts := n.counts[j + 1 := n.counts[j + 2]];
      j := j + 1;
    }
    assert j == |s.elems| - 1;
    n.elems := n.elems[j := NULL];
    n.kids := n.kids[j + 1 := null];
    n.counts := n.counts[j + 1 := 0];
    assert forall i {:trigger n.kids[i]} :: 0 <= i < 4 ==>
      n.kids[i] == if i <= ei then K[i] else if i <= j then K[i + 1] else null;
    assert forall i {:trigger n.counts[i]} :: 0 <= i < 4 ==>
      n.counts[i] == if i <= ei then C[i] else if i <= j then C[i + 1] else 0;
    assert forall i {:trigger n.elems[i]} :: 0 <= i < 3 ==>
      n.elems[i] == if i < ei then E[i] else if i < j then E[i + 1] else NULL;
    ShiftedFields(s, ei, K, C, E, n.kids, n.counts, n.elems);
  }

  lemma ShiftedFields(s: Shape, ei: nat, K: seq<Node?>, C: seq<int>, E: seq<Ptr>, K': seq<Node?>, C': seq<int>,
                      E': seq<Ptr>)
    requires NodeLike(s) && ei < |s.elems| && Fields(s, -1, null, 0, K, C, E) && |K'| == |C'| == 4 && |E'| == 3
    requires forall i {:trigger K'[i]} :: 0 <= i < 4 ==>
      K'[i] == if i <= ei then K[i] else if i < |s.elems| then K[i + 1] else null
    requires forall i {:trigger C'[i]} :: 0 <= i < 4 ==>
      C'[i] == if i <= ei then C[i] else if i < |s.elems| then C[i + 1] else 0
    requires forall i {:trigger E'[i]} :: 0 <= i < 3 ==>
      E'[i] == if i < ei then E[i] else if i < |s.elems| - 1 then E[i + 1] else NULL
    ensures Fields(Nd(s.ref, Without(s.kids, ei + 1), Without(s.elems, ei)), -1, null, 0, K', C', E')
  {
  }
}
