/** Putting the entries of a discretionary list in the preferred order. */
module AclOrder {
  import opened Wrappers
  import opened Acl

  function Inherited(a: Ace): bool {
    Has(a.flags, INHERITED_ACE)
  }

  function Allow(a: Ace): bool
    requires a.Access? || a.AccessObject?
  {
    a.allow
  }

  type AccessAce = a: Ace | a.Access? || a.AccessObject? witness Access(Sid(1, [0, 0, 0, 0, 0, 0], []), 0, 0, false)

  /** -1 when `lhs` belongs after `rhs`, 1 when it belongs before, 0 when it does not matter. */
  function Order(lhs: AccessAce, rhs: AccessAce): int {
    if Inherited(lhs) && !Inherited(rhs) then -1
    else if !Inherited(lhs) && Inherited(rhs) then 1
    else if Allow(lhs) && !Allow(rhs) then -1
    else if !Allow(lhs) && Allow(rhs) then 1
    else if IsObjectAce(lhs) && !IsObjectAce(rhs) then -1
    else if !IsObjectAce(lhs) && IsObjectAce(rhs) then 1
    else 0
  }

  /** Direct before inherited, denied before allowed, plain before object entries. */
  function Rank(a: AccessAce): int {
    (if a.flags / 0x10 % 2 == 1 then 4 else 0) + (if a.allow then 2 else 0) + (if a.AccessObject? then 1 else 0)
  }

  /** The comparison is a total preorder: it compares ranks, which are read off the fields. */
  lemma OrderIsByRank(a: AccessAce, b: AccessAce)
    ensures Order(a, b) == if Rank(a) > Rank(b) then -1 else if Rank(a) < Rank(b) then 1 else 0
  {
  }

  // ---------- lists of owning pointers ----------

  type Slot = Option<AccessAce>

  predicate Full(q: seq<Slot>) {
    forall k :: 0 <= k < |q| ==> q[k].Some?
  }

  predicate InOrder(a: Slot, b: Slot)
    requires a.Some? && b.Some?
  {
    Order(a.value, b.value) != -1
  }

  /** Among the first `n` entries, those `h` apart are in order. */
  predicate Chained(q: seq<Slot>, h: int, n: int)
    requires Full(q) && h > 0 && n <= |q|
  {
    forall k :: h <= k < n ==> InOrder(q[k - h], q[k])
  }

  /** `a` may stand before `b`, said of the fields: the bit 0x10 marks an inherited entry. */
  predicate MayPrecede(a: AccessAce, b: AccessAce) {
    var inheritedA, inheritedB := a.flags / 0x10 % 2 == 1, b.flags / 0x10 % 2 == 1;
    && (inheritedA ==> inheritedB)
    && (inheritedA == inheritedB && a.allow ==> b.allow)
    && (inheritedA == inheritedB && a.allow == b.allow && a.AccessObject? ==> b.AccessObject?)
  }

  /** The preferred order. */
  ghost predicate Sorted(q: seq<Slot>)
    requires Full(q)
  {
    forall j, k :: 0 <= j < k < |q| ==> MayPrecede(q[j].value, q[k].value)
  }

  lemma InOrderMeans(a: AccessAce, b: AccessAce)
    ensures InOrder(Some(a), Some(b)) <==> MayPrecede(a, b)
  {
    OrderIsByRank(a, b);
  }

  lemma {:induction false} ChainedBySteps(q: seq<Slot>, j: int, k: int)
    requires Full(q) && Chained(q, 1, |q|) && 0 <= j < k < |q|
    ensures InOrder(q[j], q[k])
    decreases k - j
  {
    assert InOrder(q[k - 1], q[k]);
    if j < k - 1 {
      ChainedBySteps(q, j, k - 1);
    }
  }

  /** The list with the entry that is on its way put back into the empty slot. */
  function Filled(q: seq<Slot>, j: int, e: Slot): seq<Slot>
    requires 0 <= j < |q|
  {
    q[j := e]
  }

  lemma MoveKeeps(q: seq<Slot>, j: int, l: int, e: Slot)
    requires 0 <= l < j < |q| && q[j] == None
    ensures multiset(Filled(q[j := q[l]][l := None], l, e)) == multiset(Filled(q, j, e))
  {
    var p, p' := Filled(q, j, e), Filled(q[j := q[l]][l := None], l, e);
    assert p' == p[j := p[l]][l := p[j]];
  }

  /** While an entry is on its way, only its slot is empty, and everything else of the prefix is in order. */
  ghost predicate Shifting(q: seq<Slot>, h: int, i: int, j: int, e: Slot) {
    && 0 <= j <= i < |q| && h > 0 && e.Some?
    && (forall k :: 0 <= k < |q| ==> (q[k].None? <==> k == j))
    && (forall k :: h <= k <= i && k != j && k - h != j ==> InOrder(q[k - h], q[k]))
    && (j + h <= i ==> InOrder(e, q[j + h]))
    && (j + h <= i && j >= h ==> InOrder(q[j - h], q[j + h]))
  }

  /** ... and with the entry put back, the list has what it had. */
  ghost predicate Holding(q: seq<Slot>, h: int, i: int, j: int, e: Slot, was: seq<Slot>) {
    Shifting(q, h, i, j, e) && multiset(Filled(q, j, e)) == multiset(was) && |q| == |was|
  }

  lemma HoldStarts(q: seq<Slot>, h: int, i: int)
    requires 0 <= i < |q| && h > 0 && Full(q) && Chained(q, h, i)
    ensures Holding(q[i := None], h, i, i, q[i], q)
  {
    assert Filled(q[i := None], i, q[i]) == q;
  }

  lemma HoldMoves(q: seq<Slot>, h: int, i: int, j: int, e: Slot, was: seq<Slot>)
    requires Holding(q, h, i, j, e, was) && j >= h && Order(q[j - h].value, e.value) == -1
    ensures Holding(q[j := q[j - h]][j - h := None], h, i, j - h, e, was)
  {
    MoveKeeps(q, j, j - h, e);
  }

  lemma HoldEnds(q: seq<Slot>, h: int, i: int, j: int, e: Slot, was: seq<Slot>)
    requires Holding(q, h, i, j, e, was) && (j < h || Order(q[j - h].value, e.value) != -1)
    ensures var r := q[j := e];
            |r| == |was| && Full(r) && Chained(r, h, i + 1) && multiset(r) == multiset(was)
  {
  }

  lemma OneEmpty(q: seq<Slot>, h: int, i: int, j: int, e: Slot, was: seq<Slot>)
    requires Holding(q, h, i, j, e, was)
    ensures 0 <= j <= i < |q| == |was| && e.Some? && forall k :: 0 <= k < |q| ==> (q[k].None? <==> k == j)
  {
  }

  /** Gaps are 1, 4, 13, 40, ... */
  predicate IsGap(h: nat) {
    h == 1 || (h > 1 && h % 3 == 1 && IsGap(h / 3))
  }

  method PrepareAcesForAcl(a: array<Slot>)
    requires Full(a[..])
    modifies a
    ensures Full(a[..]) && Sorted(a[..])
    ensures multiset(a[..]) == multiset(old(a[..]))
  {
    var count := a.Length;
    var h: nat := 1;
    while h * 3 + 1 < count
      invariant IsGap(h)
    {
      h := 3 * h + 1;
    }
    while h > 0
      invariant h > 0 ==> IsGap(h)
      invariant Full(a[..]) && multiset(a[..]) == multiset(old(a[..]))
      invariant h == 0 ==> Chained(a[..], 1, count)
    {
      Pass(a, h);
      h := h / 3;
    }
    forall j, k | 0 <= j < k < count
      ensures MayPrecede(a[..][j].value, a[..][k].value)
    {
      ChainedBySteps(a[..], j, k);
      InOrderMeans(a[..][j].value, a[..][k].value);
    }
  }

  /** One pass of insertion sort over the chains of entries `h` apart. */
  method Pass(a: array<Slot>, h: nat)
    requires Full(a[..]) && h > 0
    modifies a
    ensures Full(a[..]) && Chained(a[..], h, a.Length)
    ensures multiset(a[..]) == multiset(old(a[..]))
  {
    var i := h - 1;
    while i < a.Length
      invariant h - 1 <= i && Full(a[..]) && multiset(a[..]) == multiset(old(a[..]))
      invariant Chained(a[..], h, if i < a.Length then i else a.Length)
    {
      Place(a, h, i);
      i := i + 1;
    }
  }

  /** The entry before the empty slot moves into it, and leaves its own slot empty. */
  method ShiftOne(a: array<Slot>, h: nat, i: nat, j: nat, e: Slot, ghost was: seq<Slot>)
    requires Holding(a[..], h, i, j, e, was) && h <= j < a.Length && a[j - h].Some? && e.Some?
    requires Order(a[j - h].value, e.value) == -1
    modifies a
    ensures Holding(a[..], h, i, j - h, e, was) && forall k :: 0 <= k < a.Length ==> (a[k].None? <==> k == j - h)
  {
    hide Order, Holding;
    ghost var q := a[..];
    HoldMoves(q, h, i, j, e, was);
    a[j] := a[j - h];
    a[j - h] := None;
    assert a[..] == q[j := q[j - h]][j - h := None];
    OneEmpty(a[..], h, i, j - h, e, was);
  }

  /** Moves entry `i` back along its chain.  Each assignment takes the pointer out of the slot it came from. */
  method Place(a: array<Slot>, h: nat, i: nat)
    requires h > 0 && i < a.Length && Full(a[..]) && Chained(a[..], h, i)
    modifies a
    ensures Full(a[..]) && Chained(a[..], h, i + 1)
    ensures multiset(a[..]) == multiset(old(a[..]))
  {
    hide Order, Holding, Full, Chained;
    ghost var was := a[..];
    HoldStarts(was, h, i);
    assert a[i].Some? by {
      FullAt(was, i);
    }
    var e := a[i];
    a[i] := None;
    var j := i;
    assert a[..] == was[i := None];
    OneEmpty(a[..], h, i, j, e, was);
    while j >= h && Order(a[j - h].value, e.value) == -1
      invariant Holding(a[..], h, i, j, e, was)
      invariant 0 <= j <= i && forall k :: 0 <= k < a.Length ==> (a[k].None? <==> k == j)
    {
      ShiftOne(a, h, i, j, e, was);
      j := j - h;
    }
    ghost var q := a[..];
    HoldEnds(q, h, i, j, e, was);
    a[j] := e;
    assert a[..] == q[j := e];
  }

  lemma FullAt(q: seq<Slot>, i: nat)
    requires Full(q) && i < |q|
    ensures q[i].Some?
  {
  }
}
