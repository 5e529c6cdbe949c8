/** findrelpos234 and its three special cases: search by comparison. */
module Tree234Search {
  import opened Wrappers
  import opened Tree234Shapes
  import opened Tree234Nodes
  import opened Tree234Base

  datatype Relation = EQ | LT | LE | GT | GE

  /** How `e` compares with `x`; a NULL `e` is a maximum for LT and a minimum for GT. */
  function Against(e: Ptr, cmp: Option<Cmp>, rel: Relation, x: Ptr): int
    requires e != NULL ==> cmp.Some?
  {
    if e == NULL then (if rel.LT? then 1 else if rel.GT? then -1 else 0) else cmp.value(e, x)
  }

  /** The comparison runs from "greater" through at most one "equal" to "less" along the list. */
  ghost predicate Monotone(e: Ptr, cmp: Option<Cmp>, rel: Relation, q: seq<Ptr>)
    requires e != NULL ==> cmp.Some?
  {
    forall i, j :: 0 <= i < j < |q| && Against(e, cmp, rel, q[j]) >= 0 ==> Against(e, cmp, rel, q[i]) > 0
  }

  /** The element sought: the relation holds of it, that is, of `-c` with 0. */
  predicate Wanted(rel: Relation, c: int) {
    match rel
    case EQ => c == 0
    case LT => c > 0
    case LE => c >= 0
    case GT => c < 0
    case GE => c <= 0
  }

  /** What the header promises: the greatest element below, the smallest above, or the equal one. */
  ghost predicate Answer(e: Ptr, cmp: Option<Cmp>, rel: Relation, q: seq<Ptr>, ret: Ptr, index: Option<int>)
    requires e != NULL ==> cmp.Some?
  {
    if index.None? then
      ret == NULL && forall j :: 0 <= j < |q| ==> !Wanted(rel, Against(e, cmp, rel, q[j]))
    else
      var i := index.value;
      && 0 <= i < |q| && ret == q[i] && ret != NULL && Wanted(rel, Against(e, cmp, rel, q[i]))
      && forall j :: 0 <= j < |q| && j != i && Wanted(rel, Against(e, cmp, rel, q[j])) ==>
          match rel case EQ => false case LT => j < i case LE => j < i case GT => j > i case GE => j > i
  }

  /** The header's words, with the comparison itself: the last element below, the first one above, and so on; there is
      none exactly when every element is on the other side.  NULL is above or below every element. */
  ghost predicate Promised(e: Ptr, cmp: Cmp, rel: Relation, q: seq<Ptr>, ret: Ptr, index: Option<int>) {
    if index.None? then
      && ret == NULL
      && match rel
         case EQ => forall j :: 0 <= j < |q| ==> cmp(e, q[j]) != 0
         case LT => forall j :: 0 <= j < |q| ==> cmp(e, q[j]) <= 0
         case LE => forall j :: 0 <= j < |q| ==> cmp(e, q[j]) < 0
         case GT => forall j :: 0 <= j < |q| ==> cmp(e, q[j]) >= 0
         case GE => forall j :: 0 <= j < |q| ==> cmp(e, q[j]) > 0
    else
      var i := index.value;
      && 0 <= i < |q| && ret == q[i]
      && match rel
         case EQ => cmp(e, q[i]) == 0
         case LT => cmp(e, q[i]) > 0 && forall j :: i < j < |q| ==> cmp(e, q[j]) <= 0
         case LE => cmp(e, q[i]) >= 0 && forall j :: i < j < |q| ==> cmp(e, q[j]) < 0
         case GT => cmp(e, q[i]) < 0 && forall j :: 0 <= j < i ==> cmp(e, q[j]) >= 0
         case GE => cmp(e, q[i]) <= 0 && forall j :: 0 <= j < i ==> cmp(e, q[j]) > 0
  }

  /** The first `n` elements compare smaller than `e`. */
  ghost predicate Smaller(e: Ptr, cmp: Option<Cmp>, rel: Relation, q: seq<Ptr>, n: int)
    requires e != NULL ==> cmp.Some?
  {
    0 <= n <= |q| && forall j :: 0 <= j < n ==> Against(e, cmp, rel, q[j]) > 0
  }

  /** The elements from `n` on compare greater than `e`. */
  ghost predicate Greater(e: Ptr, cmp: Option<Cmp>, rel: Relation, q: seq<Ptr>, n: int)
    requires e != NULL ==> cmp.Some?
  {
    0 <= n <= |q| && forall j :: n <= j < |q| ==> Against(e, cmp, rel, q[j]) < 0
  }

  /** One comparison decides about a whole side of the list. */
  lemma Decide(e: Ptr, cmp: Option<Cmp>, rel: Relation, q: seq<Ptr>, i: int)
    requires (e != NULL ==> cmp.Some?) && Monotone(e, cmp, rel, q) && 0 <= i < |q|
    ensures Against(e, cmp, rel, q[i]) >= 0 ==> Smaller(e, cmp, rel, q, i)
    ensures Against(e, cmp, rel, q[i]) > 0 ==> Smaller(e, cmp, rel, q, i + 1)
    ensures Against(e, cmp, rel, q[i]) < 0 ==> Greater(e, cmp, rel, q, i)
    ensures Against(e, cmp, rel, q[i]) <= 0 ==> Greater(e, cmp, rel, q, i + 1)
  {
  }

  /** The subtree `s` is the part of `q` that starts at `o`. */
  ghost predicate Part(q: seq<Ptr>, o: int, s: Shape) {
    0 <= o && o + Size(s) <= |q| && q[o..o + Size(s)] == Flat(s)
  }

  lemma SubPart(q: seq<Ptr>, p: seq<Ptr>, o: int, b: int, m: int)
    requires 0 <= o && o + |p| <= |q| && q[o..o + |p|] == p && 0 <= b && 0 <= m && b + m <= |p|
    ensures q[o + b..o + b + m] == p[b..b + m]
    ensures m < |p| - b ==> q[o + b + m] == p[b + m]
  {
    forall j | 0 <= j < |p| ensures q[o + j] == p[j] {
      assert q[o..o + |p|][j] == q[o + j];
    }
    var x := q[o + b..o + b + m];
    forall j | 0 <= j < m ensures x[j] == p[b..b + m][j] {
      assert q[o + (b + j)] == p[b + j];
    }
    if m < |p| - b { assert q[o + (b + m)] == p[b + m]; }
  }

  lemma PartKid(q: seq<Ptr>, o: int, s: Shape, i: nat)
    requires Part(q, o, s) && Slot(s, i)
    ensures Part(q, o + |Before(s, i)|, s.kids[i])
    ensures |Before(s, 0)| == 0
    ensures i == |s.elems| ==> |Before(s, i)| + Size(s.kids[i]) == Size(s)
    ensures i < |s.elems| ==> |Before(s, i + 1)| == |Before(s, i)| + Size(s.kids[i]) + 1
    ensures i < |s.elems| ==>
      var at := o + |Before(s, i)| + Size(s.kids[i]); 0 <= at < o + Size(s) && q[at] == s.elems[i]
  {
    hide FlatL, PreL, PostL;
    FlatAt(s, i);
    Offsets(s, i);
    var b, m := |Before(s, i)|, Size(s.kids[i]);
    SubPart(q, Flat(s), o, b, m);
    assert Flat(s)[b..b + m] == Flat(s.kids[i]);
  }

  /** The scan of one node: stops at an equal element or before the first greater one. */
  method ScanNode(n: Node, e: Ptr, cmp: Option<Cmp>, rel: Relation, idx0: int, cmpret: int,
                  ghost s: Shape, ghost h: nat, ghost q: seq<Ptr>)
    returns (kcount: int, ecount: int, idx: int)
    requires Good(s, h) && h >= 1 && s.ref == n && (e != NULL ==> cmp.Some?)
    requires cmpret == if e != NULL then 0 else if rel.LT? then 1 else -1
    requires e == NULL ==> rel.LT? || rel.GT?
    requires Monotone(e, cmp, rel, q) && Part(q, idx0, s)
    requires Smaller(e, cmp, rel, q, idx0) && Greater(e, cmp, rel, q, idx0 + Size(s))
    ensures ecount >= 0 ==>
      && ecount < |s.elems| && 0 <= idx < |q| && q[idx] == s.elems[ecount] && Against(e, cmp, rel, q[idx]) == 0
    ensures ecount < 0 ==>
      && 0 <= kcount < |s.kids| && Part(q, idx, s.kids[kcount])
      && Smaller(e, cmp, rel, q, idx) && Greater(e, cmp, rel, q, idx + Size(s.kids[kcount]))
  {
    assert NodeLike(s) && Local(s, -1, null, 0);
    hide Good, Rep, RepL, WF, Distinct, DistinctL, RefsL, Before, Monotone, Smaller, Greater, Part;
    idx, ecount, kcount := idx0, -1, 0;
    PartKid(q, idx0, s, 0);
    while kcount < 4
      invariant 0 <= kcount < |s.kids| && ecount == -1
      invariant idx == idx0 + |Before(s, kcount)| && Smaller(e, cmp, rel, q, idx)
    {
      PartKid(q, idx0, s, kcount);
      if kcount >= 3 || n.elems[kcount] == NULL {
        break;
      }
      var c := if cmpret != 0 then cmpret else cmp.value(e, n.elems[kcount]);
      Decide(e, cmp, rel, q, idx + Size(s.kids[kcount]));
      if c < 0 {
        break;
      }
      if n.kids[kcount] != null { idx := idx + n.counts[kcount]; }
      if c == 0 {
        ecount := kcount;
        return;
      }
      idx := idx + 1;
      kcount := kcount + 1;
    }
  }

  /** A search down from the root: to an equal element, or to the place where `e` would go. */
  method Descend(t: Tree234, e: Ptr, cmp: Option<Cmp>, rel: Relation, cmpret: int)
    returns (idx: int, found: Ptr)
    requires t.Valid() && t.root != null && (e != NULL ==> cmp.Some?)
    requires cmpret == if e != NULL then 0 else if rel.LT? then 1 else -1
    requires e == NULL ==> rel.LT? || rel.GT?
    requires Monotone(e, cmp, rel, t.Contents())
    ensures found != NULL ==>
      0 <= idx < |t.Contents()| && t.Contents()[idx] == found && Against(e, cmp, rel, found) == 0
    ensures found == NULL ==> Smaller(e, cmp, rel, t.Contents(), idx) && Greater(e, cmp, rel, t.Contents(), idx)
  {
    ghost var q := t.Contents();
    var n := t.root;
    idx, found := 0, NULL;
    ghost var s, h := t.shape, t.height;
    assert Part(q, 0, s) && Smaller(e, cmp, rel, q, 0) && Greater(e, cmp, rel, q, |q|);
    while true
      invariant h >= 1 && RefOf(s) == n && Good(s, h) && Part(q, idx, s) && allocated(Refs(s)) && allocated(t.Repr())
      invariant q == t.Contents() && Smaller(e, cmp, rel, q, idx) && Greater(e, cmp, rel, q, idx + Size(s))
      decreases h
    {
      var kcount, ecount, idx' := ScanNode(n, e, cmp, rel, idx, cmpret, s, h, q);
      idx := idx';
      if ecount >= 0 {
        found := n.elems[ecount];
        return;
      }
      GoodKid(s, h, kcount);
      s, h := s.kids[kcount], h - 1;
      if n.kids[kcount] == null {
        return;
      }
      n := n.kids[kcount];
    }
  }

  /** The comparison of a sorted tree meets the condition for every element sought in it. */
  lemma SortedIsMonotone(e: Ptr, cmp: Option<Cmp>, rel: Relation, q: seq<Ptr>)
    requires cmp.Some? && Comparison(cmp.value) && Sorted(cmp.value, q)
    requires e == NULL ==> rel.LT? || rel.GT?
    ensures Monotone(e, cmp, rel, q)
  {
    if e != NULL {
      var c := cmp.value;
      forall i, j | 0 <= i < j < |q| && c(e, q[j]) >= 0 ensures c(e, q[i]) > 0 {
        Compares(c, e, q[j], e);
        Compares(c, q[i], q[j], e);
        Compares(c, q[i], e, q[i]);
      }
    }
  }

  /** From the rank of `e` to the answer: one index lookup beside it. */
  function Beside(rel: Relation, idx: int, found: bool): int {
    if found then (if rel.LT? then idx - 1 else if rel.GT? then idx + 1 else idx)
    else if rel.LT? || rel.LE? then idx - 1 else idx
  }

  lemma BesideIs(e: Ptr, cmp: Option<Cmp>, rel: Relation, q: seq<Ptr>, idx: int, found: bool, ret: Ptr)
    requires (e != NULL ==> cmp.Some?) && Monotone(e, cmp, rel, q)
    requires if found
      then 0 <= idx < |q| && Against(e, cmp, rel, q[idx]) == 0
      else Smaller(e, cmp, rel, q, idx) && Greater(e, cmp, rel, q, idx) && !rel.EQ?
    requires var i := Beside(rel, idx, found);
      ret == (if 0 <= i < |q| then q[i] else NULL) && (0 <= i < |q| ==> ret != NULL)
    ensures Answer(e, cmp, rel, q, ret, if ret != NULL then Some(Beside(rel, idx, found)) else None)
  {
    if found { Decide(e, cmp, rel, q, idx); }
    match rel {
      case EQ =>
      case LT =>
      case LE =>
      case GT =>
      case GE =>
    }
  }

  lemma NotFound(e: Ptr, cmp: Option<Cmp>, q: seq<Ptr>, idx: int)
    requires (e != NULL ==> cmp.Some?) && Smaller(e, cmp, EQ, q, idx) && Greater(e, cmp, EQ, q, idx)
    ensures Answer(e, cmp, EQ, q, NULL, None)
  {
  }

  /** ... and that is what the header promises. */
  lemma AnswerMeans(e: Ptr, cmp: Option<Cmp>, rel: Relation, q: seq<Ptr>, ret: Ptr, index: Option<int>)
    requires if e == NULL then rel.LT? || rel.GT? else cmp.Some?
    requires q != [] && Answer(e, cmp, rel, q, ret, index)
    ensures e != NULL ==> Promised(e, cmp.value, rel, q, ret, index)
    ensures e == NULL ==> index.Some? && ret == q[index.value] && index.value == if rel == LT then |q| - 1 else 0
  {
    if e == NULL {
      assert Wanted(rel, Against(e, cmp, rel, q[if rel == LT then |q| - 1 else 0]));
    } else {
      forall j | 0 <= j < |q|
        ensures Against(e, cmp, rel, q[j]) == cmp.value(e, q[j])
      {
      }
    }
  }

  predicate Searchable(t: Tree234, e: Ptr, cmp: Option<Cmp>, rel: Relation)
  {
    if e == NULL then rel.LT? || rel.GT? else cmp.Some? || t.cmp.Some?
  }

  function Using(t: Tree234, cmp: Option<Cmp>): Option<Cmp> {
    if cmp.None? then t.cmp else cmp
  }

  /** findrelpos234: `index` is None where the source leaves the caller's integer alone. */
  method FindRelPos234(t: Tree234, e: Ptr, cmp0: Option<Cmp>, rel: Relation) returns (ret: Ptr, index: Option<int>)
    requires t.Valid()
    requires t.Contents() != [] ==>
      Searchable(t, e, cmp0, rel) && Monotone(e, Using(t, cmp0), rel, t.Contents())
    ensures t.Contents() == [] ==> ret == NULL && index == None
    ensures t.Contents() != [] ==> Answer(e, Using(t, cmp0), rel, t.Contents(), ret, index)
    ensures e != NULL && t.Contents() != [] ==>
      Promised(e, if cmp0.Some? then cmp0.value else t.cmp.value, rel, t.Contents(), ret, index)
    ensures e == NULL && t.Contents() != [] ==>
      index == Some(if rel == LT then |t.Contents()| - 1 else 0) && ret == t.Contents()[index.value]
  {
    hide Monotone, Smaller, Greater, Answer, Promised, Good, Flat, Against, Comparison, Sorted;
    EmptyRoot(t);
    if t.root == null { return NULL, None; }
    var cmp := if cmp0.None? then t.cmp else cmp0;
    ghost var q := t.Contents();
    var cmpret := 0;
    if e == NULL {
      if rel == LT { cmpret := 1; } else if rel == GT { cmpret := -1; }
    }
    assert allocated(t.Repr());
    var idx, found := Descend(t, e, cmp, rel, cmpret);
    ghost var rank := idx;
    if found != NULL {
      if rel != LT && rel != GT {
        BesideIs(e, cmp, rel, q, rank, true, found);
        AnswerMeans(e, cmp, rel, q, found, Some(idx));
        return found, Some(idx);
      }
      if rel == LT { idx := idx - 1; } else { idx := idx + 1; }
    } else {
      if rel == EQ {
        NotFound(e, cmp, q, rank);
        AnswerMeans(e, cmp, rel, q, NULL, None);
        return NULL, None;
      }
      if rel == LT || rel == LE { idx := idx - 1; }
    }
    ret := Index234(t, idx);
    index := if ret != NULL then Some(idx) else None;
    BesideIs(e, cmp, rel, q, rank, found != NULL, ret);
    AnswerMeans(e, cmp, rel, q, ret, index);
  }

  lemma EmptyRoot(t: Tree234)
    requires t.Valid()
    ensures t.root == null <==> t.Contents() == []
  {
    SizeZero(t.shape, t.height);
  }

  lemma SizeZero(s: Shape, h: nat)
    requires WF(s, h)
    ensures Size(s) == 0 <==> s.Nil?
  {
    if h > 0 { SizeIs(s); }
  }
}
