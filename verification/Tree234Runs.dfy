/** The tree against the slow array: single operations, whole runs, iteration, height. */
module Tree234Runs {
  import opened Wrappers
  import opened Arithmetic
  import opened Tree234Shapes
  import opened Tree234Nodes
  import opened Tree234Pairs
  import opened Tree234Base
  import opened Tree234Search
  import opened Tree234Delete
  import opened Tree234Insert

  // ---------- the slow array ----------

  /** The first position whose element is not smaller than `e`. */
  function FirstNotLess(q: seq<Ptr>, cmp: Cmp, e: Ptr): (i: nat)
    ensures i <= |q|
  {
    if q == [] || cmp(e, q[0]) <= 0 then 0 else 1 + FirstNotLess(q[1..], cmp, e)
  }

  predicate Holds(q: seq<Ptr>, cmp: Cmp, e: Ptr) {
    var i := FirstNotLess(q, cmp, e);
    i < |q| && cmp(e, q[i]) == 0
  }

  datatype Op =
    | Add(e: Ptr) | AddPos(e: Ptr, index: int) | Del(e: Ptr) | DelPos(index: int)
    | Index(index: int) | Count | Find(e: Ptr, rel: Relation)

  /** What a caller must see to before an operation on the list `q`. */
  predicate Legal(cmp: Option<Cmp>, q: seq<Ptr>, op: Op) {
    match op
    case Add(e) => e != NULL
    case AddPos(e, index) => e != NULL && index <= |q|
    case Del(e) => e != NULL && cmp.Some?
    case DelPos(_) => true
    case Index(_) => true
    case Count => true
    case Find(e, rel) => if e == NULL then rel.LT? || rel.GT? else cmp.Some?
  }

  /** One operation on the array: the new array and the result. */
  function Slow(cmp: Option<Cmp>, q: seq<Ptr>, op: Op): (seq<Ptr>, int)
    requires Legal(cmp, q, op)
  {
    match op
    case Add(e) =>
      if cmp.None? then (q, NULL)
      else
        var i := FirstNotLess(q, cmp.value, e);
        if Holds(q, cmp.value, e) then (q, q[i]) else (InsertAt(q, i, e), e)
    case AddPos(e, index) =>
      if index < 0 || cmp.Some? then (q, NULL) else (InsertAt(q, index, e), e)
    case Del(e) =>
      var i := FirstNotLess(q, cmp.value, e);
      if Holds(q, cmp.value, e) then (Without(q, i), q[i]) else (q, NULL)
    case DelPos(index) =>
      if 0 <= index < |q| then (Without(q, index), q[index]) else (q, NULL)
    case Index(index) =>
      (q, if 0 <= index < |q| then q[index] else NULL)
    case Count =>
      (q, |q|)
    case Find(e, rel) =>
      var found := e != NULL && Holds(q, cmp.value, e);
      var rank := if e == NULL then (if rel.LT? then |q| else 0) else FirstNotLess(q, cmp.value, e);
      var i := Beside(rel, rank, found);
      (q, if (rel.EQ? && !found) || !(0 <= i < |q|) then NULL else q[i])
  }

  predicate LegalRun(cmp: Option<Cmp>, q: seq<Ptr>, ops: seq<Op>)
    decreases |ops|
  {
    ops == [] || (Legal(cmp, q, ops[0]) && LegalRun(cmp, Slow(cmp, q, ops[0]).0, ops[1..]))
  }

  function SlowRun(cmp: Option<Cmp>, q: seq<Ptr>, ops: seq<Op>): (seq<Ptr>, seq<int>)
    requires LegalRun(cmp, q, ops)
    decreases |ops|
  {
    if ops == [] then (q, []) else
    var (q1, ret) := Slow(cmp, q, ops[0]);
    var (q2, rets) := SlowRun(cmp, q1, ops[1..]);
    (q2, [ret] + rets)
  }

  // ---------- the array's search is the tree's ----------

  lemma {:induction false} FirstIs(q: seq<Ptr>, cmp: Cmp, e: Ptr)
    ensures var i := FirstNotLess(q, cmp, e);
      && (forall j :: 0 <= j < i ==> cmp(e, q[j]) > 0)
      && (i < |q| ==> cmp(e, q[i]) <= 0)
  {
    if q != [] && cmp(e, q[0]) > 0 {
      FirstIs(q[1..], cmp, e);
      var i := FirstNotLess(q, cmp, e);
      forall j | 0 <= j < i ensures cmp(e, q[j]) > 0 {
        if j > 0 { assert q[j] == q[1..][j - 1]; }
      }
    }
  }

  /** In a sorted array the scan finds the equal element if there is one, and else the rank. */
  lemma FirstDecides(q: seq<Ptr>, cmp: Cmp, e: Ptr)
    requires Comparison(cmp) && Sorted(cmp, q)
    ensures var i := FirstNotLess(q, cmp, e);
      && (forall j :: 0 <= j < |q| && cmp(e, q[j]) == 0 ==> j == i && Holds(q, cmp, e))
      && (!Holds(q, cmp, e) ==> Rank(q, cmp, e, i))
      && (forall j :: Rank(q, cmp, e, j) ==> j == i && !Holds(q, cmp, e))
  {
    FirstIs(q, cmp, e);
    var i := FirstNotLess(q, cmp, e);
    forall j | i < j < |q| ensures cmp(e, q[j]) < 0 {
      assert cmp(q[i], q[j]) < 0;
      Compares(cmp, e, q[i], q[j]);
    }
    forall j | 0 <= j <= |q| && j != i ensures !Rank(q, cmp, e, j) {
      if j < i { assert cmp(e, q[j]) > 0; } else { assert cmp(e, q[i]) <= 0; }
    }
  }

  /** The answer of a search is the array's. */
  lemma FindIs(cmp: Option<Cmp>, q: seq<Ptr>, e: Ptr, rel: Relation, ret: Ptr, index: Option<int>)
    requires cmp.Some? ==> Comparison(cmp.value) && Sorted(cmp.value, q)
    requires Legal(cmp, q, Find(e, rel)) && (forall i :: 0 <= i < |q| ==> q[i] != NULL)
    requires if q == [] then ret == NULL else Answer(e, cmp, rel, q, ret, index)
    ensures Slow(cmp, q, Find(e, rel)) == (q, ret)
  {
    if q != [] {
      if e != NULL {
        FirstIs(q, cmp.value, e);
        FirstDecides(q, cmp.value, e);
      }
      var slow := Slow(cmp, q, Find(e, rel)).1;
      var found := e != NULL && Holds(q, cmp.value, e);
      var rank := if e == NULL then (if rel.LT? then |q| else 0) else FirstNotLess(q, cmp.value, e);
      var i := Beside(rel, rank, found);
      if 0 <= i < |q| && !(rel.EQ? && !found) {
        assert Wanted(rel, Against(e, cmp, rel, q[i]));
        assert index.Some?;
        assert index.value == i;
      }
    }
  }

  // ---------- the tree against the array ----------

  /** Any legal operation on any tree does what it does to the array. */
  method Perform(t: Tree234, op: Op) returns (ret: int, ghost fresh': set<Node>)
    requires t.Valid() && Legal(t.cmp, t.Contents(), op)
    modifies t, t.Repr()
    ensures t.Valid() && t.Repr() <= old(t.Repr()) + fresh' && fresh(fresh')
    ensures (t.Contents(), ret) == Slow(t.cmp, old(t.Contents()), op)
  {
    hide Comparison, Sorted, Good, Flat, Answer;
    ghost var q, R := t.Contents(), t.Repr();
    AllNonNull(t);
    assert allocated(t.Repr());
    match op {
      case Add(e) =>
        if t.cmp.Some? { FirstDecides(q, t.cmp.value, e); }
        ret := Add234(t, e);
      case AddPos(e, index) =>
        ret := AddPos234(t, e, index);
      case Del(e) =>
        FirstDecides(q, t.cmp.value, e);
        ret := Del234(t, e);
      case DelPos(index) =>
        ret := DelPos234(t, index);
      case Index(index) =>
        ret := Index234(t, index);
      case Count =>
        ret := Count234(t);
      case Find(e, rel) =>
        if t.cmp.Some? { SortedIsMonotone(e, t.cmp, rel, q); }
        var index;
        ret, index := FindRelPos234(t, e, None, rel);
        FindIs(t.cmp, q, e, rel, ret, index);
    }
    fresh' := t.Repr() - R;
  }

  lemma AllNonNull(t: Tree234)
    requires t.Valid()
    ensures forall i :: 0 <= i < |t.Contents()| ==> t.Contents()[i] != NULL
  {
    forall i | 0 <= i < |t.Contents()| ensures t.Contents()[i] != NULL {
      NonNull(t.shape, t.height, i);
    }
  }

  /** A run is its first operation and then the rest. */
  lemma RunStep(cmp: Option<Cmp>, q: seq<Ptr>, ops: seq<Op>, rets: seq<int>)
    requires LegalRun(cmp, q, ops) && ops != []
    ensures var (q1, ret) := Slow(cmp, q, ops[0]);
      && LegalRun(cmp, q1, ops[1..])
      && SlowRun(cmp, q, ops).0 == SlowRun(cmp, q1, ops[1..]).0
      && rets + SlowRun(cmp, q, ops).1 == (rets + [ret]) + SlowRun(cmp, q1, ops[1..]).1
  {
  }

  /** Any legal run on a new tree gives the results and the list that it gives on the empty array. */
  method Run(cmp: Option<Cmp>, ops: seq<Op>) returns (t: Tree234, rets: seq<int>)
    requires cmp.Some? ==> Comparison(cmp.value)
    requires LegalRun(cmp, [], ops)
    ensures t.Valid() && t.cmp == cmp && t.Contents() == SlowRun(cmp, [], ops).0 && rets == SlowRun(cmp, [], ops).1
  {
    hide SlowRun, LegalRun, Slow, Legal;
    t := new Tree234(cmp);
    rets := [];
    var todo := ops;
    ghost var R: set<Node> := {};
    while todo != []
      invariant t.Valid() && t.cmp == cmp && fresh(t) && t.Repr() <= R && fresh(R)
      invariant LegalRun(cmp, t.Contents(), todo)
      invariant SlowRun(cmp, [], ops).0 == SlowRun(cmp, t.Contents(), todo).0
      invariant SlowRun(cmp, [], ops).1 == rets + SlowRun(cmp, t.Contents(), todo).1
    {
      RunStep(cmp, t.Contents(), todo, rets);
      LegalFirst(cmp, t.Contents(), todo);
      var ret;
      ghost var new';
      ret, new' := Perform(t, todo[0]);
      R := R + new';
      rets, todo := rets + [ret], todo[1..];
    }
    EmptyRun(cmp, t.Contents());
  }

  lemma LegalFirst(cmp: Option<Cmp>, q: seq<Ptr>, ops: seq<Op>)
    requires LegalRun(cmp, q, ops) && ops != []
    ensures Legal(cmp, q, ops[0])
  {
  }

  lemma EmptyRun(cmp: Option<Cmp>, q: seq<Ptr>)
    ensures LegalRun(cmp, q, []) && SlowRun(cmp, q, []) == (q, [])
  {
  }

  // ---------- undoing ----------

  lemma TwoOps(cmp: Option<Cmp>, q: seq<Ptr>, a: Op, b: Op)
    requires Legal(cmp, q, a) && Legal(cmp, Slow(cmp, q, a).0, b)
    ensures LegalRun(cmp, q, [a, b])
    ensures var (q1, r1) := Slow(cmp, q, a); var (q2, r2) := Slow(cmp, q1, b); SlowRun(cmp, q, [a, b]) == (q2, [r1, r2])
  {
    var (q1, r1) := Slow(cmp, q, a);
    var (q2, r2) := Slow(cmp, q1, b);
    assert [a, b][1..] == [b] && [b][1..] == [];
    EmptyRun(cmp, q2);
    assert LegalRun(cmp, q1, [b]);
    RunStep(cmp, q1, [b], [r1]);
    RunStep(cmp, q, [a, b], []);
    var rest := SlowRun(cmp, q1, [b]).1;
    assert [] + SlowRun(cmp, q, [a, b]).1 == SlowRun(cmp, q, [a, b]).1 && ([] + [r1]) + rest == [r1] + rest;
    assert ([r1] + [r2]) + [] == [r1, r2];
  }

  /** Deletion at an index undoes insertion there, and insertion undoes deletion. */
  lemma PositionsUndo(q: seq<Ptr>, e: Ptr, i: int)
    requires e != NULL && 0 <= i <= |q|
    ensures LegalRun(None, q, [AddPos(e, i), DelPos(i)])
    ensures SlowRun(None, q, [AddPos(e, i), DelPos(i)]) == (q, [e, e])
    ensures i < |q| && q[i] != NULL ==>
      && LegalRun(None, q, [DelPos(i), AddPos(q[i], i)])
      && SlowRun(None, q, [DelPos(i), AddPos(q[i], i)]) == (q, [q[i], q[i]])
  {
    hide SlowRun, LegalRun;
    TwoOps(None, q, AddPos(e, i), DelPos(i));
    assert Without(InsertAt(q, i, e), i) == q;
    if i < |q| && q[i] != NULL {
      TwoOps(None, q, DelPos(i), AddPos(q[i], i));
      assert InsertAt(Without(q, i), i, q[i]) == q;
    }
  }

  lemma HoldsAfter(cmp: Cmp, q: seq<Ptr>, e: Ptr)
    requires Comparison(cmp) && Sorted(cmp, q) && !Holds(q, cmp, e)
    ensures var i := FirstNotLess(q, cmp, e); var q1 := InsertAt(q, i, e);
      Holds(q1, cmp, e) && FirstNotLess(q1, cmp, e) == i && q1[i] == e && Without(q1, i) == q
  {
    hide Comparison, Sorted, Rank, FirstNotLess, Holds, InsertAt, Without;
    var i := FirstNotLess(q, cmp, e);
    FirstDecides(q, cmp, e);
    RankInRange(q, cmp, e, i);
    InsertedAt(q, i, e);
    FirstDecides(InsertAt(q, i, e), cmp, e);
    EqualToItself(cmp, e);
  }

  lemma EqualToItself(cmp: Cmp, e: Ptr)
    requires Comparison(cmp)
    ensures cmp(e, e) == 0
  {
  }

  lemma InsertedAt(q: seq<Ptr>, i: int, e: Ptr)
    requires 0 <= i <= |q|
    ensures var r := InsertAt(q, i, e); |r| == |q| + 1 && r[i] == e && Without(r, i) == q
  {
  }

  /** In a sorted tree, deleting an element undoes adding it; adding twice is adding once. */
  lemma SortedUndo(cmp: Cmp, q: seq<Ptr>, e: Ptr)
    requires Comparison(cmp) && Sorted(cmp, q) && e != NULL && !Holds(q, cmp, e)
    ensures LegalRun(Some(cmp), q, [Add(e), Del(e)]) && LegalRun(Some(cmp), q, [Add(e), Add(e)])
    ensures SlowRun(Some(cmp), q, [Add(e), Del(e)]) == (q, [e, e])
    ensures SlowRun(Some(cmp), q, [Add(e), Add(e)]) == (InsertAt(q, FirstNotLess(q, cmp, e), e), [e, e])
  {
    hide SlowRun, LegalRun, Holds, FirstNotLess, Sorted, Comparison, Without, InsertAt;
    HoldsAfter(cmp, q, e);
    TwoOps(Some(cmp), q, Add(e), Del(e));
    TwoOps(Some(cmp), q, Add(e), Add(e));
  }

  // ---------- iteration ----------

  /** The successor of an element in a sorted list, by search. */
  lemma NextIs(cmp: Cmp, q: seq<Ptr>, i: int, ret: Ptr, index: Option<int>)
    requires Comparison(cmp) && Sorted(cmp, q) && 0 <= i < |q| && (forall j :: 0 <= j < |q| ==> q[j] != NULL)
    ensures Answer(q[i], Some(cmp), GT, q, ret, index) ==> ret == if i + 1 < |q| then q[i + 1] else NULL
    ensures Answer(q[i], Some(cmp), LT, q, ret, index) ==> ret == if i > 0 then q[i - 1] else NULL
  {
    var e, c := q[i], Some(cmp);
    assert cmp(e, e) == 0;
    forall j | 0 <= j < |q| && j != i ensures if j < i then cmp(e, q[j]) > 0 else cmp(e, q[j]) < 0 {
      if j < i { assert cmp(q[j], q[i]) < 0; } else { assert cmp(q[i], q[j]) < 0; }
    }
    if i + 1 < |q| { assert Wanted(GT, Against(e, c, GT, q[i + 1])); }
    if i > 0 { assert Wanted(LT, Against(e, c, LT, q[i - 1])); }
  }

  lemma EndIs(cmp: Option<Cmp>, q: seq<Ptr>, ret: Ptr, index: Option<int>)
    requires forall j :: 0 <= j < |q| ==> q[j] != NULL
    ensures q != [] && Answer(NULL, cmp, GT, q, ret, index) ==> ret == q[0]
    ensures q != [] && Answer(NULL, cmp, LT, q, ret, index) ==> ret == q[|q| - 1]
  {
    if q != [] {
      assert Wanted(GT, Against(NULL, cmp, GT, q[0])) && Wanted(LT, Against(NULL, cmp, LT, q[|q| - 1]));
    }
  }

  /** From an element (or from NULL) to its neighbour. */
  method Neighbour(t: Tree234, p: Ptr, rel: Relation, ghost i: int) returns (next: Ptr)
    requires t.Valid() && t.cmp.Some? && (rel.GT? || rel.LT?)
    requires if p == NULL then i == (if rel.GT? then -1 else |t.Contents()|)
             else 0 <= i < |t.Contents()| && t.Contents()[i] == p
    ensures var k := if rel.GT? then i + 1 else i - 1;
      next == (if 0 <= k < |t.Contents()| then t.Contents()[k] else NULL) && (0 <= k < |t.Contents()| ==> next != NULL)
  {
    ghost var q := t.Contents();
    AllNonNull(t);
    SortedIsMonotone(p, t.cmp, rel, q);
    var index;
    next, index := FindRelPos234(t, p, None, rel);
    if p == NULL { EndIs(t.cmp, q, next, index); } else { NextIs(t.cmp.value, q, i, next, index); }
  }

  /** The forward loop of the header: every element once, in order. */
  method VisitForwards(t: Tree234) returns (visited: seq<Ptr>)
    requires t.Valid() && t.cmp.Some?
    ensures visited == t.Contents()
  {
    hide Comparison, Sorted, Good, Flat;
    visited := [];
    ghost var q := t.Contents();
    assert allocated(t.Repr());
    var p := Neighbour(t, NULL, GT, -1);
    while p != NULL
      invariant t.Valid() && t.Contents() == q
      invariant |visited| <= |q| && visited == q[..|visited|]
      invariant p == if |visited| < |q| then q[|visited|] else NULL
      invariant |visited| < |q| ==> p != NULL
      decreases |q| - |visited|
    {
      visited := visited + [p];
      assert allocated(t.Repr());
      p := Neighbour(t, p, GT, |visited| - 1);
    }
  }

  /** The backward loop of the header: every element once, from the last to the first. */
  method VisitBackwards(t: Tree234) returns (visited: seq<Ptr>)
    requires t.Valid() && t.cmp.Some?
    ensures |visited| == |t.Contents()| && forall j :: 0 <= j < |visited| ==>
      visited[j] == t.Contents()[|visited| - 1 - j]
  {
    hide Comparison, Sorted, Good, Flat;
    visited := [];
    ghost var q := t.Contents();
    assert allocated(t.Repr());
    var p := Neighbour(t, NULL, LT, |q|);
    while p != NULL
      invariant t.Valid() && t.Contents() == q
      invariant |visited| <= |q| && forall j :: 0 <= j < |visited| ==> visited[j] == q[|q| - 1 - j]
      invariant p == if |visited| < |q| then q[|q| - 1 - |visited|] else NULL
      invariant |visited| < |q| ==> p != NULL
      decreases |q| - |visited|
    {
      visited := visited + [p];
      assert allocated(t.Repr());
      p := Neighbour(t, p, LT, |q| - |visited|);
    }
  }

  // ---------- height ----------

  /** A tree of height `h` holds between 2^h - 1 and 4^h - 1 elements. */
  lemma {:induction false} HeightBounds(s: Shape, h: nat)
    requires WF(s, h)
    ensures Power(2, h) - 1 <= Size(s) <= Power(4, h) - 1
    decreases h
  {
    if h > 0 {
      SizeIs(s);
      HeightBounds(s.kids[0], h - 1);
      HeightBounds(s.kids[1], h - 1);
      if |s.kids| > 2 { HeightBounds(s.kids[2], h - 1); }
      if |s.kids| > 3 { HeightBounds(s.kids[3], h - 1); }
    }
  }
}
