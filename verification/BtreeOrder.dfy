/**
 * The global invariant of the B-tree on the value of a block file, and what searching means.
 *
 * The invariant is a conjunction of conditions on single nodes.  It needs two things the file does not record: the
 * open interval of keys a node is responsible for, and its height above the leaves.
 */
module BtreeOrder {
  import opened Wrappers
  import opened Blocks

  datatype Meta = Meta(lo: Option<Key>, hi: Option<Key>, height: nat)

  type Metas = seq<Meta>

  /** Where a full node is cut. */
  function Middle(n: nat): nat {
    n / 2 + 1
  }

  predicate Between(m: Meta, key: Key) {
    && (m.lo.Some? ==> m.lo.value < key)
    && (m.hi.Some? ==> key < m.hi.value)
  }

  // ---------- one node ----------

  predicate Fits(b: Block) {
    b.count <= |b.entries|
  }

  predicate Ascending(b: Block)
    requires Fits(b)
  {
    forall j, k :: 0 <= j < k < b.count ==> b.entries[j].key < b.entries[k].key
  }

  predicate Inside(b: Block, m: Meta)
    requires Fits(b)
  {
    forall j :: 0 <= j < b.count ==> Between(m, b.entries[j].key)
  }

  /** The children from left to right: one before each entry and one after the last. */
  function Kid(b: Block, k: nat): nat
    requires Fits(b) && k <= b.count
  {
    if k < b.count then b.entries[k].smaller else b.larger
  }

  /** The interval of the child in slot `k`. */
  function KidMeta(b: Block, m: Meta, k: nat): Meta
    requires Fits(b) && k <= b.count && m.height > 0
  {
    Meta(if k == 0 then m.lo else Some(b.entries[k - 1].key),
         if k == b.count then m.hi else Some(b.entries[k].key),
         m.height - 1)
  }

  predicate IsLeaf(b: Block) {
    b.larger == 0 && forall j :: 0 <= j < |b.entries| ==> b.entries[j].smaller == 0
  }

  predicate HasKid(b: Block, c: nat)
    requires Fits(b)
  {
    exists k :: 0 <= k <= b.count && Kid(b, k) == c
  }

  predicate KidOK(s: Store, g: Metas, i: nat, k: nat)
    requires |g| == |s| && i < |s| && Fits(s[i]) && k <= s[i].count && g[i].height > 0
  {
    var c := Kid(s[i], k);
    1 <= c < |s| && s[c].parent == i && g[c] == KidMeta(s[i], g[i], k)
  }

  predicate KidsOK(s: Store, g: Metas, i: nat)
    requires |g| == |s| && i < |s| && Fits(s[i])
  {
    if g[i].height == 0 then IsLeaf(s[i]) else forall k :: 0 <= k <= s[i].count ==> KidOK(s, g, i, k)
  }

  /** The right half of a split may be as small as this, and nothing is ever taken out. */
  predicate FillOK(b: Block, m: Meta, n: nat, isRoot: bool) {
    && Fits(b) && |b.entries| == n
    && (!isRoot ==> b.count + Middle(n) + 1 >= n)
    && (m.height > 0 && m.lo.None? ==> b.count > 0)
  }

  predicate UpOK(s: Store, g: Metas, root: nat, i: nat)
    requires |g| == |s| && i < |s| && root < |s|
  {
    && g[i].height <= g[root].height
    && (if i == root then s[i].parent == 0 && g[i].lo.None? && g[i].hi.None?
        else
          && 1 <= s[i].parent < |s| && Fits(s[s[i].parent]) && HasKid(s[s[i].parent], i)
          && g[s[i].parent].height == g[i].height + 1)
  }

  predicate NodeOK(s: Store, g: Metas, root: nat, n: nat, i: nat)
    requires |g| == |s| && i < |s| && root < |s|
  {
    && s[i].self == i
    && FillOK(s[i], g[i], n, i == root)
    && Ascending(s[i]) && Inside(s[i], g[i])
    && KidsOK(s, g, i)
    && UpOK(s, g, root, i)
  }

  // ---------- the tree ----------

  predicate Inv(s: Store, g: Metas, root: nat, n: nat) {
    && |g| == |s| && 1 <= root < |s| && n >= 3
    && forall i :: 1 <= i < |s| ==> NodeOK(s, g, root, n, i)
  }

  predicate HasEntry(b: Block, key: Key, record: Record) {
    exists j :: 0 <= j < b.count <= |b.entries| && b.entries[j].key == key && b.entries[j].record == record
  }

  predicate Stored(s: Store, key: Key, record: Record) {
    exists i :: 1 <= i < |s| && HasEntry(s[i], key, record)
  }

  /** The map holds exactly what the nodes hold. */
  ghost predicate Represents(s: Store, contents: map<Key, Record>) {
    forall key, record :: Stored(s, key, record) <==> key in contents && contents[key] == record
  }

  // ---------- searching ----------

  datatype Turn = Hit(at: nat) | Down(slot: nat)

  /** The linear search of a node. */
  function Linear(b: Block, key: Key, i: nat): (t: Turn)
    requires Fits(b) && i <= b.count
    ensures if t.Hit? then t.at < b.count else t.slot <= b.count
    decreases b.count - i
  {
    if i == b.count then Down(i)
    else if key < b.entries[i].key then Down(i)
    else if key == b.entries[i].key then Hit(i)
    else Linear(b, key, i + 1)
  }

  lemma {:induction false} LinearMeans(b: Block, key: Key, i: nat)
    requires Fits(b) && Ascending(b) && i <= b.count
    requires forall j :: 0 <= j < i ==> b.entries[j].key < key
    ensures var t := Linear(b, key, i);
            if t.Hit? then t.at < b.count && b.entries[t.at].key == key
            else t.slot <= b.count
                 && (forall j :: 0 <= j < t.slot ==> b.entries[j].key < key)
                 && (forall j :: t.slot <= j < b.count ==> key < b.entries[j].key)
    decreases b.count - i
  {
    if i < b.count && b.entries[i].key < key {
      LinearMeans(b, key, i + 1);
    }
  }

  /** Only the keys matter. */
  lemma {:induction false} LinearKeys(b: Block, c: Block, key: Key, i: nat)
    requires Fits(b) && Fits(c) && b.count == c.count && i <= b.count
    requires forall j :: 0 <= j < b.count ==> b.entries[j].key == c.entries[j].key
    ensures Linear(b, key, i) == Linear(c, key, i)
    decreases b.count - i
  {
    if i < b.count {
      LinearKeys(b, c, key, i + 1);
    }
  }

  datatype Found = Found(record: Option<Record>, location: nat)

  function Find(s: Store, g: Metas, root: nat, n: nat, i: nat, key: Key): (r: Found)
    requires Inv(s, g, root, n) && 1 <= i < |s|
    ensures 1 <= r.location < |s|
    decreases g[i].height
  {
    assert NodeOK(s, g, root, n, i);
    LinearMeans(s[i], key, 0);
    match Linear(s[i], key, 0)
    case Hit(j) => Found(Some(s[i].entries[j].record), i)
    case Down(k) =>
      if g[i].height == 0 then Found(None, i)
      else
        assert KidOK(s, g, i, k);
        Find(s, g, root, n, Kid(s[i], k), key)
  }

  /** The parent's search turns to the child exactly when the key is the child's business. */
  lemma {:induction false} TurnsTo(s: Store, g: Metas, root: nat, n: nat, i: nat, key: Key) returns (k: nat)
    requires Inv(s, g, root, n) && 1 <= i < |s| && i != root && Between(g[i], key)
    ensures var p := s[i].parent;
            1 <= p < |s| && g[p].height == g[i].height + 1 && Between(g[p], key)
            && Fits(s[p]) && k <= s[p].count && Kid(s[p], k) == i && Linear(s[p], key, 0) == Down(k)
  {
    var p := s[i].parent;
    assert NodeOK(s, g, root, n, i) && NodeOK(s, g, root, n, p);
    k :| 0 <= k <= s[p].count && Kid(s[p], k) == i;
    assert KidOK(s, g, p, k);
    LinearMeans(s[p], key, 0);
  }

  lemma ParentIsHigher(s: Store, g: Metas, root: nat, n: nat, i: nat)
    requires Inv(s, g, root, n) && 1 <= i < |s|
    ensures 1 <= root < |g| == |s| && g[i].height <= g[root].height && s[i].self == i && Fits(s[i])
      && |s[i].entries| == n >= 3
    ensures i != root ==>
      1 <= s[i].parent < |s| && s[i].parent != i && g[s[i].parent].height == g[i].height + 1 <= g[root].height
    ensures i != root ==> Fits(s[s[i].parent]) && |s[s[i].parent].entries| == n && s[s[i].parent].self == s[i].parent
  {
    assert NodeOK(s, g, root, n, i);
    if i != root {
      assert NodeOK(s, g, root, n, s[i].parent);
    }
  }

  lemma RootHasNoParent(s: Store, g: Metas, root: nat, n: nat, i: nat)
    requires Inv(s, g, root, n) && 1 <= i < |s|
    ensures 1 <= root < |s| == |g| && s[i].parent < |s| && (s[i].parent == 0 <==> i == root)
  {
    assert NodeOK(s, g, root, n, i);
  }

  /** A search from the root passes every node whose interval holds the key. */
  lemma {:induction false} Passes(s: Store, g: Metas, root: nat, n: nat, i: nat, key: Key)
    requires Inv(s, g, root, n) && 1 <= i < |s| && Between(g[i], key)
    ensures Find(s, g, root, n, root, key) == Find(s, g, root, n, i, key)
    decreases g[root].height - g[i].height
  {
    assert NodeOK(s, g, root, n, i);
    if i != root {
      var k := TurnsTo(s, g, root, n, i, key);
      var p := s[i].parent;
      assert NodeOK(s, g, root, n, p);
      Passes(s, g, root, n, p, key);
    }
  }

  lemma {:induction false} FindEnds(s: Store, g: Metas, root: nat, n: nat, i: nat, key: Key)
    requires Inv(s, g, root, n) && 1 <= i < |s| && Between(g[i], key)
    ensures var r := Find(s, g, root, n, i, key);
            if r.record.Some? then Stored(s, key, r.record.value)
            else g[r.location].height == 0 && Between(g[r.location], key)
    decreases g[i].height
  {
    assert NodeOK(s, g, root, n, i);
    LinearMeans(s[i], key, 0);
    var t := Linear(s[i], key, 0);
    if t.Down? && g[i].height > 0 {
      assert KidOK(s, g, i, t.slot);
      FindEnds(s, g, root, n, Kid(s[i], t.slot), key);
    }
  }

  /** Searching from the root answers as the map does, and a miss names the one leaf responsible for the key. */
  lemma {:induction false} FindAgrees(s: Store, g: Metas, root: nat, n: nat, contents: map<Key, Record>, key: Key)
    requires Inv(s, g, root, n) && Represents(s, contents)
    ensures var r := Find(s, g, root, n, root, key);
            && r.record == (if key in contents then Some(contents[key]) else None)
            && (r.record.None? ==> forall i :: 1 <= i < |s| ==>
               (i == r.location <==> g[i].height == 0 && Between(g[i], key)))
  {
    var r := Find(s, g, root, n, root, key);
    assert NodeOK(s, g, root, n, root);
    FindEnds(s, g, root, n, root, key);
    if key in contents {
      assert Stored(s, key, contents[key]);
      var i :| 1 <= i < |s| && HasEntry(s[i], key, contents[key]);
      assert NodeOK(s, g, root, n, i);
      Passes(s, g, root, n, i, key);
      LinearMeans(s[i], key, 0);
    }
    if r.record.None? {
      forall i | 1 <= i < |s| && g[i].height == 0 && Between(g[i], key)
        ensures i == r.location
      {
        Passes(s, g, root, n, i, key);
        FindEnds(s, g, root, n, i, key);
      }
    }
  }

  /** No key is in two places. */
  lemma {:induction false} KeysAreUnique(s: Store, g: Metas, root: nat, n: nat, i: nat, j: nat, i': nat, j': nat)
    requires Inv(s, g, root, n) && 1 <= i < |s| && 1 <= i' < |s|
    requires j < s[i].count <= |s[i].entries| && j' < s[i'].count <= |s[i'].entries|
      && s[i].entries[j].key == s[i'].entries[j'].key
    ensures i == i' && j == j'
  {
    var key := s[i].entries[j].key;
    assert NodeOK(s, g, root, n, i) && NodeOK(s, g, root, n, i');
    Passes(s, g, root, n, i, key);
    Passes(s, g, root, n, i', key);
    LinearMeans(s[i], key, 0);
    LinearMeans(s[i'], key, 0);
  }

  /** On one level, the intervals do not overlap. */
  lemma {:induction false} LevelsArePartitioned(s: Store, g: Metas, root: nat, n: nat, i: nat, j: nat, key: Key)
    requires Inv(s, g, root, n) && 1 <= i < |s| && 1 <= j < |s| && g[i].height == g[j].height
    requires Between(g[i], key) && Between(g[j], key)
    ensures i == j
    decreases g[root].height - g[i].height
  {
    assert NodeOK(s, g, root, n, i) && NodeOK(s, g, root, n, j);
    if i != root {
      var k := TurnsTo(s, g, root, n, i, key);
      assert NodeOK(s, g, root, n, s[i].parent);
    }
    if j != root {
      var k := TurnsTo(s, g, root, n, j, key);
      assert NodeOK(s, g, root, n, s[j].parent);
    }
    if i != root && j != root {
      LevelsArePartitioned(s, g, root, n, s[i].parent, s[j].parent, key);
    }
  }
}
