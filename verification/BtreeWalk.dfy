/** The whole tree read from left to right, and how deep a tree of a given size can be. */
module BtreeWalk {
  import opened Arithmetic
  import opened Blocks
  import opened BtreeOrder

  datatype Item = Item(key: Key, record: Record)

  /** Everything at and below node `i` up to and including its `k` first entries. */
  function WalkTo(s: Store, g: Metas, root: nat, n: nat, i: nat, k: nat): seq<Item>
    requires Inv(s, g, root, n) && 1 <= i < |s| && Fits(s[i]) && k <= s[i].count
    decreases g[i].height, k
  {
    if k == 0 then []
    else
      var e := s[i].entries[k - 1];
      WalkTo(s, g, root, n, i, k - 1) + WalkSlot(s, g, root, n, i, k - 1) + [Item(e.key, e.record)]
  }

  /** Everything below slot `k` of node `i`. */
  function WalkSlot(s: Store, g: Metas, root: nat, n: nat, i: nat, k: nat): seq<Item>
    requires Inv(s, g, root, n) && 1 <= i < |s| && Fits(s[i]) && k <= s[i].count
    decreases g[i].height, 0
  {
    assert NodeOK(s, g, root, n, i);
    if g[i].height == 0 then []
    else
      assert KidOK(s, g, i, k);
      Walk(s, g, root, n, Kid(s[i], k))
  }

  function Walk(s: Store, g: Metas, root: nat, n: nat, i: nat): seq<Item>
    requires Inv(s, g, root, n) && 1 <= i < |s|
    decreases g[i].height, |s[i].entries| + 1
  {
    assert NodeOK(s, g, root, n, i);
    WalkTo(s, g, root, n, i, s[i].count) + WalkSlot(s, g, root, n, i, s[i].count)
  }

  predicate Increasing(q: seq<Item>) {
    forall a, b :: 0 <= a < b < |q| ==> q[a].key < q[b].key
  }

  predicate AllBetween(q: seq<Item>, m: Meta) {
    forall a :: 0 <= a < |q| ==> Between(m, q[a].key)
  }

  // ---------- order ----------

  lemma Appended(a: seq<Item>, b: seq<Item>, e: Item, m: Meta)
    requires Increasing(a) && Increasing(b) && AllBetween(a, m) && AllBetween(b, m) && Between(m, e.key)
    requires a != [] ==> a[|a| - 1].key < e.key && forall c :: 0 <= c < |b| ==> a[|a| - 1].key < b[c].key
    requires forall c :: 0 <= c < |b| ==> b[c].key < e.key
    ensures Increasing(a + b + [e]) && AllBetween(a + b + [e], m)
  {
  }

  lemma {:induction false} WalkToOrdered(s: Store, g: Metas, root: nat, n: nat, i: nat, k: nat)
    requires Inv(s, g, root, n) && 1 <= i < |s| && Fits(s[i]) && k <= s[i].count
    ensures var q := WalkTo(s, g, root, n, i, k);
            && Increasing(q) && AllBetween(q, g[i])
            && (k == 0 ==> q == [])
            && (k > 0 ==> q != [] && q[|q| - 1].key == s[i].entries[k - 1].key)
    decreases g[i].height, k
  {
    assert NodeOK(s, g, root, n, i);
    if k > 0 {
      var a, b := WalkTo(s, g, root, n, i, k - 1), WalkSlot(s, g, root, n, i, k - 1);
      var e := s[i].entries[k - 1];
      WalkToOrdered(s, g, root, n, i, k - 1);
      SlotOrdered(s, g, root, n, i, k - 1);
      assert a != [] ==> Between(g[i], a[|a| - 1].key) && a[|a| - 1].key < e.key && forall c :: 0 <= c < |b| ==>
        a[|a| - 1].key < b[c].key;
      Appended(a, b, Item(e.key, e.record), g[i]);
    }
  }

  lemma {:induction false} SlotOrdered(s: Store, g: Metas, root: nat, n: nat, i: nat, k: nat)
    requires Inv(s, g, root, n) && 1 <= i < |s| && Fits(s[i]) && k <= s[i].count
    ensures Increasing(WalkSlot(s, g, root, n, i, k))
    ensures g[i].height > 0 ==> AllBetween(WalkSlot(s, g, root, n, i, k), KidMeta(s[i], g[i], k))
    ensures g[i].height == 0 ==> WalkSlot(s, g, root, n, i, k) == []
    decreases g[i].height, 0
  {
    assert NodeOK(s, g, root, n, i);
    if g[i].height > 0 {
      assert KidOK(s, g, i, k);
      WalkOrdered(s, g, root, n, Kid(s[i], k));
    }
  }

  /** In-order, the keys are strictly increasing across all levels. */
  lemma {:induction false} WalkOrdered(s: Store, g: Metas, root: nat, n: nat, i: nat)
    requires Inv(s, g, root, n) && 1 <= i < |s|
    ensures Increasing(Walk(s, g, root, n, i)) && AllBetween(Walk(s, g, root, n, i), g[i])
    decreases g[i].height, |s[i].entries| + 1
  {
    assert NodeOK(s, g, root, n, i);
    WalkToOrdered(s, g, root, n, i, s[i].count);
    SlotOrdered(s, g, root, n, i, s[i].count);
  }

  // ---------- what the walk meets ----------

  lemma {:induction false} WalkToHas(s: Store, g: Metas, root: nat, n: nat, i: nat, k: nat, j: nat)
    requires Inv(s, g, root, n) && 1 <= i < |s| && Fits(s[i]) && j < k <= s[i].count
    ensures var e, q := s[i].entries[j], WalkTo(s, g, root, n, i, k);
            Item(e.key, e.record) in q && forall a :: a in WalkSlot(s, g, root, n, i, j) ==> a in q
    decreases k
  {
    if j < k - 1 {
      WalkToHas(s, g, root, n, i, k - 1, j);
    }
  }

  /** A walk from the parent meets all that a walk from the child meets. */
  lemma WalkClimbs(s: Store, g: Metas, root: nat, n: nat, i: nat, e: Item)
    requires Inv(s, g, root, n) && 1 <= i < |s| && i != root && e in Walk(s, g, root, n, i)
    ensures 1 <= s[i].parent < |s| && e in Walk(s, g, root, n, s[i].parent)
  {
    var p := s[i].parent;
    assert NodeOK(s, g, root, n, i) && NodeOK(s, g, root, n, p);
    var k :| 0 <= k <= s[p].count && Kid(s[p], k) == i;
    if k < s[p].count {
      WalkToHas(s, g, root, n, p, s[p].count, k);
    }
    assert e in WalkSlot(s, g, root, n, p, k);
  }

  lemma {:induction false} WalkReaches(s: Store, g: Metas, root: nat, n: nat, i: nat, e: Item)
    requires Inv(s, g, root, n) && 1 <= i < |s| && e in Walk(s, g, root, n, i)
    ensures e in Walk(s, g, root, n, root)
    decreases g[root].height - g[i].height
  {
    if i != root {
      ParentIsHigher(s, g, root, n, i);
      WalkClimbs(s, g, root, n, i, e);
      WalkReaches(s, g, root, n, s[i].parent, e);
    }
  }

  lemma {:induction false} WalkToSound(s: Store, g: Metas, root: nat, n: nat, i: nat, k: nat, e: Item)
    requires Inv(s, g, root, n) && 1 <= i < |s| && Fits(s[i]) && k <= s[i].count
    requires e in WalkTo(s, g, root, n, i, k)
    ensures Stored(s, e.key, e.record)
    decreases g[i].height, k
  {
    if e in WalkTo(s, g, root, n, i, k - 1) {
      WalkToSound(s, g, root, n, i, k - 1, e);
    } else if e in WalkSlot(s, g, root, n, i, k - 1) {
      SlotSound(s, g, root, n, i, k - 1, e);
    } else {
      assert HasEntry(s[i], e.key, e.record);
    }
  }

  lemma {:induction false} SlotSound(s: Store, g: Metas, root: nat, n: nat, i: nat, k: nat, e: Item)
    requires Inv(s, g, root, n) && 1 <= i < |s| && Fits(s[i]) && k <= s[i].count
    requires e in WalkSlot(s, g, root, n, i, k)
    ensures Stored(s, e.key, e.record)
    decreases g[i].height, 0
  {
    assert NodeOK(s, g, root, n, i);
    assert KidOK(s, g, i, k);
    WalkSound(s, g, root, n, Kid(s[i], k), e);
  }

  lemma {:induction false} WalkSound(s: Store, g: Metas, root: nat, n: nat, i: nat, e: Item)
    requires Inv(s, g, root, n) && 1 <= i < |s| && e in Walk(s, g, root, n, i)
    ensures Stored(s, e.key, e.record)
    decreases g[i].height, |s[i].entries| + 1
  {
    assert NodeOK(s, g, root, n, i);
    if e in WalkTo(s, g, root, n, i, s[i].count) {
      WalkToSound(s, g, root, n, i, s[i].count, e);
    } else {
      SlotSound(s, g, root, n, i, s[i].count, e);
    }
  }

  predicate HasKey(q: seq<Item>, key: Key) {
    exists a :: 0 <= a < |q| && q[a].key == key
  }

  lemma {:induction false} AsManyKeys(q: seq<Item>, keys: set<Key>)
    requires Increasing(q) && forall key :: HasKey(q, key) <==> key in keys
    ensures |q| == |keys|
  {
    if q == [] {
      forall key
        ensures key !in keys
      {
        assert !HasKey(q, key);
      }
    } else {
      var l := q[|q| - 1].key;
      var q' := q[..|q| - 1];
      assert HasKey(q, l);
      forall key
        ensures HasKey(q', key) <==> key in keys - {l}
      {
        if HasKey(q', key) {
          var a :| 0 <= a < |q'| && q'[a].key == key;
          assert q[a].key == key;
        }
        if key in keys - {l} {
          assert HasKey(q, key);
          var a :| 0 <= a < |q| && q[a].key == key;
          assert q'[a].key == key;
        }
      }
      AsManyKeys(q', keys - {l});
    }
  }

  /** A walk from the root lists the map in the order of its keys, each key once. */
  lemma WalkListsTheMap(s: Store, g: Metas, root: nat, n: nat, contents: map<Key, Record>)
    requires Inv(s, g, root, n) && Represents(s, contents)
    ensures var q := Walk(s, g, root, n, root);
            && Increasing(q) && |q| == |contents|
            && forall key, record :: Item(key, record) in q <==> key in contents && contents[key] == record
  {
    var q := Walk(s, g, root, n, root);
    WalkOrdered(s, g, root, n, root);
    forall key, record
      ensures Item(key, record) in q <==> key in contents && contents[key] == record
    {
      if Item(key, record) in q {
        WalkSound(s, g, root, n, root, Item(key, record));
      }
      if Stored(s, key, record) {
        var i :| 1 <= i < |s| && HasEntry(s[i], key, record);
        var j :| 0 <= j < s[i].count <= |s[i].entries| && s[i].entries[j].key == key
          && s[i].entries[j].record == record;
        WalkToHas(s, g, root, n, i, s[i].count, j);
        WalkReaches(s, g, root, n, i, Item(key, record));
      }
    }
    forall key
      ensures HasKey(q, key) <==> key in contents.Keys
    {
      if HasKey(q, key) {
        var a :| 0 <= a < |q| && q[a].key == key;
        assert Item(key, q[a].record) in q;
      }
      if key in contents {
        assert Item(key, contents[key]) in q;
      }
    }
    AsManyKeys(q, contents.Keys);
  }

  // ---------- depth ----------

  lemma {:induction false} WalkToCounts(s: Store, g: Metas, root: nat, n: nat, i: nat, k: nat, low: nat, high: nat)
    requires Inv(s, g, root, n) && 1 <= i < |s| && Fits(s[i]) && k <= s[i].count
    requires forall j :: 0 <= j <= s[i].count ==> low <= |WalkSlot(s, g, root, n, i, j)| + 1 <= high
    ensures k * low <= |WalkTo(s, g, root, n, i, k)| <= k * high
    decreases k
  {
    if k > 0 {
      WalkToCounts(s, g, root, n, i, k - 1, low, high);
      assert low <= |WalkSlot(s, g, root, n, i, k - 1)| + 1 <= high;
      assert k * low == (k - 1) * low + low && k * high == (k - 1) * high + high;
    }
  }

  lemma {:induction false} SlotCounts(s: Store, g: Metas, root: nat, n: nat, i: nat, j: nat)
    requires Inv(s, g, root, n) && 1 <= i < |s| && Fits(s[i]) && j <= s[i].count
    ensures Power(n - Middle(n), g[i].height) <= |WalkSlot(s, g, root, n, i, j)| + 1 <= Power(n + 1, g[i].height)
    decreases g[i].height, 0
  {
    assert NodeOK(s, g, root, n, i);
    if g[i].height > 0 {
      assert KidOK(s, g, i, j);
      assert NodeOK(s, g, root, n, Kid(s[i], j));
      WalkCounts(s, g, root, n, Kid(s[i], j));
    }
  }

  lemma {:induction false} WalkCounts(s: Store, g: Metas, root: nat, n: nat, i: nat)
    requires Inv(s, g, root, n) && 1 <= i < |s|
    ensures |Walk(s, g, root, n, i)| + 1 <= Power(n + 1, g[i].height + 1)
    ensures i != root ==> Power(n - Middle(n), g[i].height + 1) <= |Walk(s, g, root, n, i)| + 1
    ensures i == root && g[i].height > 0 ==> 2 * Power(n - Middle(n), g[i].height) <= |Walk(s, g, root, n, i)| + 1
    decreases g[i].height, 1
  {
    assert NodeOK(s, g, root, n, i);
    var h, c, d := g[i].height, s[i].count, n - Middle(n);
    var low, high := Power(d, h), Power(n + 1, h);
    forall j | 0 <= j <= c
      ensures low <= |WalkSlot(s, g, root, n, i, j)| + 1 <= high
    {
      SlotCounts(s, g, root, n, i, j);
    }
    WalkToCounts(s, g, root, n, i, c, low, high);
    var a := if i != root then d else if h > 0 then 2 else 0;
    Bounds(|WalkTo(s, g, root, n, i, c)|, |WalkSlot(s, g, root, n, i, c)|, c, low, high, a, n + 1);
  }

  lemma Bounds(t: nat, u: nat, c: nat, low: nat, high: nat, a: nat, b: nat)
    requires c * low <= t <= c * high && low <= u + 1 <= high && a <= c + 1 <= b
    ensures a * low <= t + u + 1 <= b * high
  {
    LastSlot(t, u, c, low, high);
    Scales(a, c + 1, low);
    Scales(c + 1, b, high);
  }

  lemma LastSlot(t: nat, u: nat, c: nat, low: nat, high: nat)
    requires c * low <= t <= c * high && low <= u + 1 <= high
    ensures (c + 1) * low <= t + u + 1 <= (c + 1) * high
  {
  }

  /** With at least five entries to a node, the depth is logarithmic in the number of keys. */
  lemma DepthIsLogarithmic(s: Store, g: Metas, root: nat, n: nat, contents: map<Key, Record>)
    requires Inv(s, g, root, n) && Represents(s, contents)
    ensures var h := g[root].height;
            && |contents| + 1 <= Power(n + 1, h + 1)
            && (h > 0 ==> 2 * Power(n - Middle(n), h) <= |contents| + 1)
            && (n >= 5 ==> n - Middle(n) >= 2)
  {
    WalkListsTheMap(s, g, root, n, contents);
    WalkCounts(s, g, root, n, root);
  }
}
