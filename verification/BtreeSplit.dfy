/** What splitting a node and opening a slot do to the value of the file, and why the invariant survives. */
module BtreeSplit {
  import opened Wrappers
  import opened Blocks
  import opened BtreeOrder

  // ---------- opening a slot for an entry ----------

  function Opened(b: Block, k: nat, e: Entry): (r: Block)
    requires b.count < |b.entries| && k <= b.count
    ensures |r.entries| == |b.entries| && r.count == b.count + 1
    ensures forall j :: 0 <= j < r.count ==>
      r.entries[j] == if j < k then b.entries[j] else if j == k then e else b.entries[j - 1]
  {
    b.(count := b.count + 1, entries := b.entries[..k] + [e] + b.entries[k .. b.count] + b.entries[b.count + 1 ..])
  }

  lemma OpenedKeepsRest(b: Block, k: nat, e: Entry)
    requires b.count < |b.entries| && k <= b.count
    ensures Opened(b, k, e) == b.(count := b.count + 1, entries := Opened(b, k, e).entries)
    ensures |Opened(b, k, e).entries| == |b.entries|
  {
  }

  function SetKid(b: Block, k: nat, c: nat): Block
    requires Fits(b) && k <= b.count
  {
    if k < b.count then b.(entries := b.entries[k := b.entries[k].(smaller := c)]) else b.(larger := c)
  }

  lemma LinearSetKid(b: Block, k: nat, c: nat, key: Key)
    requires Fits(b) && k <= b.count
    ensures var r := SetKid(b, k, c);
            Fits(r) && |r.entries| == |b.entries| && r.count == b.count && r.self == b.self
              && Linear(r, key, 0) == Linear(b, key, 0)
  {
    LinearKeys(b, SetKid(b, k, c), key, 0);
  }

  /** The parent of a split node: `y` takes the slot of `x`, which moves in front of the new entry. */
  function Joined(b: Block, k: nat, x: nat, y: nat, e: Entry): Block
    requires b.count < |b.entries| && k <= b.count
  {
    Opened(SetKid(b, k, y), k, e.(smaller := x))
  }

  lemma JoinedAt(b: Block, k: nat, x: nat, y: nat, e: Entry, j: nat)
    requires b.count < |b.entries| && k <= b.count
    ensures var r := Joined(b, k, x, y, e);
            && |r.entries| == |b.entries| && r.count == b.count + 1
            && (j < r.count ==>
              && r.entries[j].key ==
                 (if j < k then b.entries[j].key else if j == k then e.key else b.entries[j - 1].key)
              && r.entries[j].record ==
                 (if j < k then b.entries[j].record else if j == k then e.record else b.entries[j - 1].record))
            && (j <= r.count ==>
              Kid(r, j) == if j < k then Kid(b, j) else if j == k then x else if j == k + 1 then y else Kid(b, j - 1))
  {
    var s := SetKid(b, k, y);
    assert forall i :: 0 <= i < b.count ==>
      s.entries[i] == if i == k then b.entries[i].(smaller := y) else b.entries[i];
    var r := Joined(b, k, x, y, e);
    assert r.larger == s.larger;
    if k < j < r.count {
      assert r.entries[j] == s.entries[j - 1];
    }
  }

  lemma HasOpened(b: Block, k: nat, e: Entry, key: Key, record: Record)
    requires b.count < |b.entries| && k <= b.count
    ensures HasEntry(Opened(b, k, e), key, record) <==> HasEntry(b, key, record) || (key == e.key && record == e.record)
  {
    var r := Opened(b, k, e);
    if HasEntry(b, key, record) {
      var j :| 0 <= j < b.count && b.entries[j].key == key && b.entries[j].record == record;
      assert r.entries[if j < k then j else j + 1] == b.entries[j];
    }
    assert r.entries[k] == e;
  }

  lemma HasJoined(b: Block, k: nat, x: nat, y: nat, e: Entry, key: Key, record: Record)
    requires b.count < |b.entries| && k <= b.count
    ensures HasEntry(Joined(b, k, x, y, e), key, record) <==>
      HasEntry(b, key, record) || (key == e.key && record == e.record)
  {
    var s := SetKid(b, k, y);
    assert forall j :: 0 <= j < b.count ==>
      s.entries[j].key == b.entries[j].key && s.entries[j].record == b.entries[j].record;
    HasOpened(s, k, e.(smaller := x), key, record);
  }

  // ---------- cutting a full node in two ----------

  function Left(b: Block): Block
    requires |b.entries| >= 3
  {
    var m := Middle(|b.entries|);
    b.(count := m, larger := b.entries[m].smaller)
  }

  function Right(b: Block, y: nat): Block
    requires b.count == |b.entries| >= 3
  {
    var m := Middle(|b.entries|);
    Block(y, b.parent, b.larger, b.count - m - 1, b.entries[m + 1 ..] + Zeros(m + 1))
  }

  predicate Moved(b: Block, c: nat)
    requires b.count == |b.entries| >= 3
  {
    exists k :: Middle(|b.entries|) < k <= b.count && Kid(b, k) == c
  }

  /** `split_node` on block `x`: the right half goes to the new last block and its children follow it. */
  predicate SplitTo(s: Store, s': Store, x: nat) {
    && 1 <= x < |s| && s[x].count == |s[x].entries| >= 3
    && |s'| == |s| + 1
    && s'[x] == Left(s[x])
    && s'[|s|] == Right(s[x], |s|)
    && forall i :: 1 <= i < |s| && i != x ==> s'[i] == if Moved(s[x], i) then s[i].(parent := |s|) else s[i]
  }

  /** The entries of `x` from the middle up to `i` have moved. */
  ghost predicate MovingTo(s: Store, s': Store, x: nat, i: nat) {
    && 1 <= x < |s| && s[x].count == |s[x].entries| >= 3
    && var b, m := s[x], Middle(|s[x].entries|);
       && m < i <= b.count && |s'| == |s| + 1
       && s'[|s|] == Block(|s|, b.parent, 0, i - m - 1, b.entries[m + 1 .. i] + Zeros(b.count - (i - m - 1)))
       && forall c :: 1 <= c < |s| ==> s'[c] == if MovedUpTo(b, i, c) then s[c].(parent := |s|) else s[c]
  }

  predicate MovedUpTo(b: Block, i: nat, c: nat)
    requires b.count == |b.entries| >= 3 && i <= b.count
  {
    exists k :: Middle(|b.entries|) < k < i && b.entries[k].smaller == c
  }

  lemma MovingRoom(s: Store, s': Store, x: nat, i: nat)
    requires MovingTo(s, s', x, i)
    ensures i <= s[x].count == |s[x].entries| && |s'| == |s| + 1
    ensures s'[|s|].self == |s| && s'[|s|].count + Middle(s[x].count) + 1 == i && |s'[|s|].entries| == s[x].count
  {
  }

  lemma MovesOn(s: Store, s': Store, s'': Store, x: nat, i: nat)
    requires MovingTo(s, s', x, i) && i < s[x].count && s[x].entries[i].smaller < |s|
    requires s'[|s|].count < |s'[|s|].entries| && s'' == Appended(s', |s|, s[x].entries[i])
    ensures MovingTo(s, s'', x, i + 1)
  {
    var b, m := s[x], Middle(|s[x].entries|);
    var e, y := b.entries[i], s'[|s|];
    assert b.entries[m + 1 .. i + 1] == b.entries[m + 1 .. i] + [e];
    assert y.entries[y.count := e] == b.entries[m + 1 .. i + 1] + Zeros(b.count - (i - m));
    forall c | 1 <= c < |s|
      ensures MovedUpTo(b, i + 1, c) <==> MovedUpTo(b, i, c) || c == e.smaller
    {
      assert c == e.smaller ==> MovedUpTo(b, i + 1, c);
      if MovedUpTo(b, i + 1, c) && c != e.smaller {
        var k :| m < k < i + 1 && b.entries[k].smaller == c;
        assert k < i;
      }
    }
  }

  lemma MovingStarts(s: Store, x: nat)
    requires 1 <= x < |s| && s[x].count == |s[x].entries| >= 3
    ensures MovingTo(s, s + [Block(|s|, s[x].parent, 0, 0, Zeros(s[x].count))], x, Middle(s[x].count) + 1)
  {
  }

  function WithLarger(s: Store, i: nat, c: nat): (s': Store)
    requires i < |s| && c < |s|
    ensures |s'| == |s|
  {
    var s' := s[i := s[i].(larger := c)];
    if c == 0 then s' else s'[c := s'[c].(parent := i)]
  }

  function Appended(s: Store, i: nat, e: Entry): (s': Store)
    requires i < |s| && s[i].count < |s[i].entries| && e.smaller < |s|
    ensures |s'| == |s|
  {
    var s' := s[i := s[i].(entries := s[i].entries[s[i].count := e], count := s[i].count + 1)];
    if e.smaller == 0 then s' else s'[e.smaller := s'[e.smaller].(parent := i)]
  }

  lemma AppendedKeeps(s: Store, i: nat, e: Entry, x: nat)
    requires i < |s| && s[i].count < |s[i].entries| && e.smaller < |s| && x < |s| && x != i && x != e.smaller
    ensures Appended(s, i, e)[x] == s[x]
  {
  }

  function Shortened(s: Store, x: nat, k: nat): Store
    requires x < |s|
  {
    s[x := s[x].(count := k)]
  }

  lemma WithLargerKeeps(s: Store, i: nat, c: nat, x: nat)
    requires i < |s| && c < |s| && x < |s| && x != c
    ensures var s' := WithLarger(s, i, c);
            s'[x] == if x == i then s[x].(larger := c) else s[x]
  {
  }

  lemma FullNodeFacts(s: Store, g: Metas, root: nat, n: nat, x: nat)
    requires Inv(s, g, root, n) && 1 <= x < |s| && s[x].count == |s[x].entries|
    ensures s[x].count == |s[x].entries| == n >= 3 && s[x].self == x && s[x].parent < |s|
    ensures forall k :: 0 <= k <= n ==> var c := Kid(s[x], k); c < |s| && c != x && (c != 0 ==> s[c].parent == x)
  {
    assert NodeOK(s, g, root, n, x);
    if g[x].height > 0 {
      forall k | 0 <= k <= n
        ensures var c := Kid(s[x], k); 0 < c < |s| && c != x && s[c].parent == x
      {
        assert KidOK(s, g, x, k);
      }
    }
  }

  lemma FullNodePointers(s: Store, g: Metas, root: nat, n: nat, x: nat)
    requires Inv(s, g, root, n) && 1 <= x < |s| && s[x].count == |s[x].entries|
    ensures s[x].count == |s[x].entries| == n >= 3 && s[x].self == x && s[x].parent < |s|
    ensures s[x].larger < |s| && s[x].larger != x && forall k :: 0 <= k < n ==>
      s[x].entries[k].smaller < |s| && s[x].entries[k].smaller != x
  {
    FullNodeFacts(s, g, root, n, x);
    assert Kid(s[x], n) == s[x].larger && forall k :: 0 <= k < n ==> s[x].entries[k].smaller == Kid(s[x], k);
  }

  lemma MovedIsUpTo(b: Block, c: nat)
    requires b.count == |b.entries| >= 3
    ensures Moved(b, c) <==> MovedUpTo(b, b.count, c) || c == b.larger
  {
    assert Kid(b, b.count) == b.larger;
    if MovedUpTo(b, b.count, c) {
      var k :| Middle(b.count) < k < b.count && b.entries[k].smaller == c;
      assert Kid(b, k) == c;
    }
    if Moved(b, c) {
      var k :| Middle(b.count) < k <= b.count && Kid(b, k) == c;
      assert k < b.count ==> b.entries[k].smaller == c;
    }
  }

  lemma MiddleStays(s: Store, g: Metas, root: nat, n: nat, x: nat)
    requires Inv(s, g, root, n) && 1 <= x < |s| && s[x].count == |s[x].entries| >= 3 && Mid(s[x]).smaller != 0
    ensures !Moved(s[x], Mid(s[x]).smaller)
  {
    var m, c := Middle(n), Mid(s[x]).smaller;
    assert NodeOK(s, g, root, n, x);
    assert Kid(s[x], m) == c;
    if Moved(s[x], c) {
      var k :| m < k <= n && Kid(s[x], k) == c;
      OneSlot(s, g, root, n, x, k, m);
    }
  }

  lemma SplitEnds(s: Store, g: Metas, root: nat, n: nat, s': Store, x: nat)
    requires Inv(s, g, root, n) && 1 <= x < |s| && s[x].count == |s[x].entries|
    requires MovingTo(s, s', x, s[x].count)
    requires s[x].larger < |s'| && Mid(s[x]).smaller < |s'|
    ensures SplitTo(s, Shortened(WithLarger(WithLarger(s', |s|, s[x].larger), x, Mid(s[x]).smaller), x, Middle(n)), x)
  {
    FullNodeFacts(s, g, root, n, x);
    var b, m, y := s[x], Middle(n), |s|;
    var l, c := b.larger, Mid(b).smaller;
    assert Kid(b, n) == l && Kid(b, m) == c;
    forall i | 1 <= i < |s|
      ensures Moved(b, i) <==> MovedUpTo(b, n, i) || i == l
    {
      MovedIsUpTo(b, i);
    }
    if c != 0 {
      MiddleStays(s, g, root, n, x);
    }
    assert b.entries[m + 1 .. n] == b.entries[m + 1 ..];
  }

  function Mid(b: Block): Entry
    requires |b.entries| >= 3
  {
    b.entries[Middle(|b.entries|)]
  }

  function SplitMetas(g: Metas, x: nat, key: Key): (g': Metas)
    requires x < |g|
    ensures |g'| == |g| + 1
    ensures forall i :: 0 <= i < |g| && i != x ==> g'[i] == g[i]
    ensures g'[x] == Meta(g[x].lo, Some(key), g[x].height) && g'[|g|] == Meta(Some(key), g[x].hi, g[x].height)
  {
    g[x := g[x].(hi := Some(key))] + [Meta(Some(key), g[x].hi, g[x].height)]
  }

  lemma SplitHas(b: Block, y: nat, key: Key, record: Record)
    requires b.count == |b.entries| >= 3
    ensures HasEntry(b, key, record) <==>
              HasEntry(Left(b), key, record) || HasEntry(Right(b, y), key, record)
                || (Mid(b).key == key && Mid(b).record == record)
  {
    var m := Middle(|b.entries|);
    var l, r := Left(b), Right(b, y);
    if HasEntry(b, key, record) {
      var j :| 0 <= j < b.count && b.entries[j].key == key && b.entries[j].record == record;
      assert j < m ==> l.entries[j] == b.entries[j];
      assert j > m ==> r.entries[j - m - 1] == b.entries[j];
    }
    if HasEntry(r, key, record) {
      var j :| 0 <= j < r.count && r.entries[j].key == key && r.entries[j].record == record;
      assert r.entries[j] == b.entries[j + m + 1];
    }
  }

  /** A child has one slot. */
  lemma OneSlot(s: Store, g: Metas, root: nat, n: nat, i: nat, j: nat, k: nat)
    requires Inv(s, g, root, n) && 1 <= i < |s| && g[i].height > 0
    requires Fits(s[i]) && j <= s[i].count && k <= s[i].count && Kid(s[i], j) == Kid(s[i], k)
    ensures j == k
  {
    assert NodeOK(s, g, root, n, i);
    assert KidOK(s, g, i, j) && KidOK(s, g, i, k);
  }

  /** What a node must satisfy apart from its link to the parent. */
  predicate DownOK(s: Store, g: Metas, n: nat, isRoot: bool, i: nat)
    requires |g| == |s| && i < |s|
  {
    && s[i].self == i
    && FillOK(s[i], g[i], n, isRoot)
    && Ascending(s[i]) && Inside(s[i], g[i])
    && KidsOK(s, g, i)
  }

  lemma LeftDown(s: Store, g: Metas, root: nat, n: nat, s': Store, x: nat)
    requires Inv(s, g, root, n) && SplitTo(s, s', x)
    ensures DownOK(s', SplitMetas(g, x, Mid(s[x]).key), n, false, x)
  {
    var g' := SplitMetas(g, x, Mid(s[x]).key);
    var m := Middle(n);
    assert NodeOK(s, g, root, n, x);
    if g[x].height > 0 {
      forall k | 0 <= k <= m
        ensures KidOK(s', g', x, k)
      {
        assert KidOK(s, g, x, k);
        var c := Kid(s[x], k);
        assert NodeOK(s, g, root, n, c);
        assert Kid(s'[x], k) == c;
        if Moved(s[x], c) {
          var k' :| m < k' <= n && Kid(s[x], k') == c;
          OneSlot(s, g, root, n, x, k, k');
        }
      }
    }
  }

  lemma RightDown(s: Store, g: Metas, root: nat, n: nat, s': Store, x: nat)
    requires Inv(s, g, root, n) && SplitTo(s, s', x)
    ensures DownOK(s', SplitMetas(g, x, Mid(s[x]).key), n, false, |s|)
  {
    var g' := SplitMetas(g, x, Mid(s[x]).key);
    var m, y := Middle(n), |s|;
    assert NodeOK(s, g, root, n, x);
    assert forall j :: 0 <= j < s'[y].count ==> s'[y].entries[j] == s[x].entries[j + m + 1];
    if g[x].height == 0 {
      assert forall j :: 0 <= j < n ==> s'[y].entries[j].smaller == 0;
    } else {
      forall k | 0 <= k <= s'[y].count
        ensures KidOK(s', g', y, k)
      {
        assert KidOK(s, g, x, k + m + 1);
        var c := Kid(s[x], k + m + 1);
        assert NodeOK(s, g, root, n, c);
        assert Kid(s'[y], k) == c && Moved(s[x], c);
      }
    }
  }

  /** A node that is neither cut nor the parent of the cut node keeps its children. */
  lemma OtherDown(s: Store, g: Metas, root: nat, n: nat, s': Store, x: nat, i: nat)
    requires Inv(s, g, root, n) && SplitTo(s, s', x) && 1 <= i < |s| && i != x && i != s[x].parent
    ensures DownOK(s', SplitMetas(g, x, Mid(s[x]).key), n, i == root, i)
  {
    var g' := SplitMetas(g, x, Mid(s[x]).key);
    assert NodeOK(s, g, root, n, i) && NodeOK(s, g, root, n, x);
    if g[i].height > 0 {
      forall k | 0 <= k <= s[i].count
        ensures KidOK(s', g', i, k)
      {
        assert KidOK(s, g, i, k);
        var c := Kid(s[i], k);
        assert NodeOK(s, g, root, n, c);
        if Moved(s[x], c) {
          MovedIs(s, g, root, n, x, c);
        }
      }
    }
  }

  lemma MovedIs(s: Store, g: Metas, root: nat, n: nat, x: nat, c: nat)
    requires Inv(s, g, root, n) && 1 <= x < |s| && s[x].count == |s[x].entries| >= 3 && 1 <= c < |s| && Moved(s[x], c)
    ensures s[c].parent == x && g[x].height > 0 && g[c].height == g[x].height - 1
  {
    assert NodeOK(s, g, root, n, x);
    var k :| Middle(n) < k <= s[x].count && Kid(s[x], k) == c;
    assert KidOK(s, g, x, k);
  }

  /** Links to a parent other than the parent of the cut node still hold; children of `x` went to one of the halves. */
  lemma OtherUp(s: Store, g: Metas, root: nat, n: nat, s': Store, x: nat, i: nat)
    requires Inv(s, g, root, n) && SplitTo(s, s', x) && 1 <= i < |s| && i != x && i != root
      && s[i].parent != s[x].parent
    ensures var g', p := SplitMetas(g, x, Mid(s[x]).key), s'[i].parent;
            1 <= p < |s'| && p != s[x].parent && Fits(s'[p]) && HasKid(s'[p], i) && g'[p].height == g[i].height + 1
  {
    assert NodeOK(s, g, root, n, i) && NodeOK(s, g, root, n, x);
    var m, q := Middle(n), s[i].parent;
    assert NodeOK(s, g, root, n, q);
    var k :| 0 <= k <= s[q].count && Kid(s[q], k) == i;
    if q == x && k > m {
      assert Moved(s[x], i);
      assert s'[|s|].entries == s[x].entries[m + 1 ..] + Zeros(m + 1);
      assert Kid(s'[|s|], k - m - 1) == i;
    } else {
      if Moved(s[x], i) {
        MovedIs(s, g, root, n, x, i);
        var k' :| m < k' <= n && Kid(s[x], k') == i;
        OneSlot(s, g, root, n, x, k, k');
        assert false;
      }
      assert Kid(s'[q], k) == i;
    }
  }

  // ---------- a split with a parent that has room ----------

  /** `x` and `y` sit side by side in slot `k` and `k + 1` of the parent `p` of `x`. */
  ghost predicate JoinsAt(s: Store, s': Store, s'': Store, x: nat, k: nat) {
    && SplitTo(s, s', x)
    && var p := s[x].parent;
       && 1 <= p < |s| && s[p].count < |s[p].entries| && k <= s[p].count && Kid(s[p], k) == x
       && s'' == s'[p := Joined(s[p], k, x, |s|, Mid(s[x]))]
  }

  /** A key between its neighbours may come in. */
  lemma WiderKeys(b: Block, r: Block, m: Meta, k: nat, key: Key)
    requires Fits(b) && Fits(r) && k <= b.count && r.count == b.count + 1 && Ascending(b) && Inside(b, m)
      && Between(m, key)
    requires forall j {:trigger r.entries[j]} :: 0 <= j < r.count ==>
      r.entries[j].key == if j < k then b.entries[j].key else if j == k then key else b.entries[j - 1].key
    requires (k > 0 ==> b.entries[k - 1].key < key) && (k < b.count ==> key < b.entries[k].key)
    ensures Ascending(r) && Inside(r, m)
  {
    forall i, j | 0 <= i < j < r.count
      ensures r.entries[i].key < r.entries[j].key
    {
      assert i < k < b.count ==> b.entries[i].key < b.entries[k].key;
      assert 0 < k < j ==> b.entries[k - 1].key < b.entries[j - 1].key;
    }
  }

  lemma JoinedKeys(b: Block, m: Meta, k: nat, x: nat, y: nat, e: Entry)
    requires b.count < |b.entries| && k <= b.count && m.height > 0 && Ascending(b) && Inside(b, m)
    requires Between(KidMeta(b, m, k), e.key)
    ensures var r := Joined(b, k, x, y, e);
            Fits(r) && r.count == b.count + 1
            && Ascending(r) && Inside(r, m)
  {
    hide Joined, Ascending, Inside, KidMeta;
    var r := Joined(b, k, x, y, e);
    JoinedAt(b, k, x, y, e, 0);
    forall j {:trigger r.entries[j]} | 0 <= j < r.count
      ensures r.entries[j].key == (if j < k then b.entries[j].key else if j == k then e.key else b.entries[j - 1].key)
    {
      JoinedAt(b, k, x, y, e, j);
    }
    InKidMeta(b, m, k, e.key);
    WiderKeys(b, r, m, k, e.key);
  }

  lemma InKidMeta(b: Block, m: Meta, k: nat, key: Key)
    requires Fits(b) && k <= b.count && m.height > 0 && Inside(b, m) && Between(KidMeta(b, m, k), key)
    ensures Between(m, key) && (k > 0 ==> b.entries[k - 1].key < key) && (k < b.count ==> key < b.entries[k].key)
  {
  }

  lemma JoinedKidMeta(b: Block, m: Meta, k: nat, x: nat, y: nat, e: Entry, j: nat)
    requires b.count < |b.entries| && k <= b.count && m.height > 0 && j <= b.count + 1
    ensures var r := Joined(b, k, x, y, e);
            Fits(r) && r.count == b.count + 1
            && KidMeta(r, m, j) == if j < k then KidMeta(b, m, j)
                                   else if j == k then KidMeta(b, m, k).(hi := Some(e.key))
                                   else if j == k + 1 then KidMeta(b, m, k).(lo := Some(e.key))
                                   else KidMeta(b, m, j - 1)
  {
    JoinedAt(b, k, x, y, e, j);
    if j > 0 {
      JoinedAt(b, k, x, y, e, j - 1);
    }
  }

  lemma ParentKid(s: Store, g: Metas, root: nat, n: nat, s': Store, s'': Store, x: nat, k: nat, j: nat)
    requires Inv(s, g, root, n) && x != root && JoinsAt(s, s', s'', x, k) && j <= s[s[x].parent].count + 1
    ensures var g', p := SplitMetas(g, x, Mid(s[x]).key), s[x].parent;
            g'[p].height > 0 && Fits(s''[p]) && j <= s''[p].count && KidOK(s'', g', p, j)
  {
    var p, y, e := s[x].parent, |s|, Mid(s[x]);
    assert NodeOK(s, g, root, n, x) && NodeOK(s, g, root, n, p);
    assert KidOK(s, g, p, k);
    JoinedAt(s[p], k, x, y, e, j);
    JoinedKidMeta(s[p], g[p], k, x, y, e, j);
    if j < k || j > k + 1 {
      var j' := if j < k then j else j - 1;
      assert KidOK(s, g, p, j');
      var c := Kid(s[p], j');
      assert NodeOK(s, g, root, n, c);
      if c == x {
        OneSlot(s, g, root, n, p, j', k);
        assert false;
      }
      if Moved(s[x], c) {
        MovedIs(s, g, root, n, x, c);
        assert false;
      }
    }
  }

  lemma ParentDown(s: Store, g: Metas, root: nat, n: nat, s': Store, s'': Store, x: nat, k: nat)
    requires Inv(s, g, root, n) && x != root && JoinsAt(s, s', s'', x, k)
    ensures DownOK(s'', SplitMetas(g, x, Mid(s[x]).key), n, s[x].parent == root, s[x].parent)
  {
    var p, y, e := s[x].parent, |s|, Mid(s[x]);
    assert NodeOK(s, g, root, n, x) && NodeOK(s, g, root, n, p);
    assert KidOK(s, g, p, k);
    JoinedKeys(s[p], g[p], k, x, y, e);
    forall j | 0 <= j <= s''[p].count
      ensures KidOK(s'', SplitMetas(g, x, e.key), p, j)
    {
      ParentKid(s, g, root, n, s', s'', x, k, j);
    }
  }

  lemma JoinedHas(b: Block, k: nat, x: nat, y: nat, e: Entry, c: nat)
    requires b.count < |b.entries| && k <= b.count && Kid(b, k) == x
    ensures var r := Joined(b, k, x, y, e);
            Fits(r) && (HasKid(r, c) <==> HasKid(b, c) || c == y)
  {
    var r := Joined(b, k, x, y, e);
    JoinedAt(b, k, x, y, e, k + 1);
    JoinedAt(b, k, x, y, e, k);
    if HasKid(b, c) {
      var j :| 0 <= j <= b.count && Kid(b, j) == c;
      JoinedAt(b, k, x, y, e, if j <= k then j else j + 1);
    }
    if HasKid(r, c) {
      var j :| 0 <= j <= r.count && Kid(r, j) == c;
      JoinedAt(b, k, x, y, e, j);
    }
  }

  /** Splitting below a parent that has room keeps the invariant. */
  lemma JoinKeeps(s: Store, g: Metas, root: nat, n: nat, s': Store, s'': Store, x: nat, k: nat)
    requires Inv(s, g, root, n) && x != root && JoinsAt(s, s', s'', x, k)
    ensures Inv(s'', SplitMetas(g, x, Mid(s[x]).key), root, n)
  {
    var p, y := s[x].parent, |s|;
    var g' := SplitMetas(g, x, Mid(s[x]).key);
    assert NodeOK(s, g, root, n, x) && NodeOK(s, g, root, n, p) && NodeOK(s, g, root, n, root);
    forall i | 1 <= i < |s''|
      ensures NodeOK(s'', g', root, n, i)
    {
      JoinedDown(s, g, root, n, s', s'', x, k, i);
      JoinedUp(s, g, root, n, s', s'', x, k, i);
    }
  }

  lemma JoinedDown(s: Store, g: Metas, root: nat, n: nat, s': Store, s'': Store, x: nat, k: nat, i: nat)
    requires Inv(s, g, root, n) && x != root && JoinsAt(s, s', s'', x, k) && 1 <= i < |s''|
    ensures DownOK(s'', SplitMetas(g, x, Mid(s[x]).key), n, i == root, i)
  {
    var p, y := s[x].parent, |s|;
    var g' := SplitMetas(g, x, Mid(s[x]).key);
    ParentDown(s, g, root, n, s', s'', x, k);
    if i != p {
      if i == x {
        LeftDown(s, g, root, n, s', x);
      } else if i == y {
        RightDown(s, g, root, n, s', x);
      } else {
        OtherDown(s, g, root, n, s', x, i);
      }
      assert NodeOK(s, g, root, n, x) && NodeOK(s, g, root, n, p);
      JoinedAt(s[p], k, x, y, Mid(s[x]), 0);
      if g'[i].height > 0 {
        forall j | 0 <= j <= s''[i].count
          ensures KidOK(s'', g', i, j)
        {
          assert KidOK(s', g', i, j);
        }
      }
    }
  }

  lemma JoinedUp(s: Store, g: Metas, root: nat, n: nat, s': Store, s'': Store, x: nat, k: nat, i: nat)
    requires Inv(s, g, root, n) && x != root && JoinsAt(s, s', s'', x, k) && 1 <= i < |s''|
    ensures UpOK(s'', SplitMetas(g, x, Mid(s[x]).key), root, i)
  {
    var p, y := s[x].parent, |s|;
    assert NodeOK(s, g, root, n, x) && NodeOK(s, g, root, n, p) && NodeOK(s, g, root, n, root);
    JoinedHas(s[p], k, x, y, Mid(s[x]), i);
    JoinedAt(s[p], k, x, y, Mid(s[x]), 0);
    if i < y {
      assert NodeOK(s, g, root, n, i);
      if Moved(s[x], i) {
        MovedIs(s, g, root, n, x, i);
      }
      if i != root && i != x && s[i].parent != p {
        OtherUp(s, g, root, n, s', x, i);
      }
    }
  }

  // ---------- a split of the root ----------

  function Grown(slots: nat, r: nat, x: nat, y: nat, e: Entry): Block
    requires slots > 0
  {
    Block(r, 0, y, 1, Zeros(slots)[0 := e.(smaller := x)])
  }

  /** Both halves hang below a new root in the block after them. */
  ghost predicate GrowsTo(s: Store, s': Store, s'': Store, x: nat) {
    && SplitTo(s, s', x)
    && var r := |s| + 1;
       s'' == s'[x := s'[x].(parent := r)][|s| := s'[|s|].(parent := r)] + [Grown(|s[x].entries|, r, x, |s|, Mid(s[x]))]
  }

  /** The steps that put a new root over `x` and `y`. */
  function Topped(s: Store, slots: nat, x: nat, y: nat, e: Entry): Store
    requires 0 < slots && x < |s| && y < |s| && e.smaller < |s|
  {
    var r := |s|;
    var t := WithLarger(s + [Block(r, 0, 0, 0, Zeros(slots))], r, y);
    WithLargerKeeps(s + [Block(r, 0, 0, 0, Zeros(slots))], r, y, r);
    var u := Appended(t, r, e);
    u[x := u[x].(parent := r)]
  }

  lemma GrowSteps(s: Store, s': Store, x: nat)
    requires SplitTo(s, s', x)
    ensures GrowsTo(s, s', Topped(s', |s[x].entries|, x, |s|, Mid(s[x]).(smaller := x)), x)
  {
  }

  function GrowMetas(g: Metas, x: nat, key: Key): Metas
    requires x < |g|
  {
    SplitMetas(g, x, key) + [Meta(None, None, g[x].height + 1)]
  }

  lemma GrownDown(s: Store, g: Metas, root: nat, n: nat, s': Store, s'': Store, i: nat)
    requires Inv(s, g, root, n) && GrowsTo(s, s', s'', root) && 1 <= i < |s''|
    ensures DownOK(s'', GrowMetas(g, root, Mid(s[root]).key), n, i == |s| + 1, i)
  {
    var g', g'' := SplitMetas(g, root, Mid(s[root]).key), GrowMetas(g, root, Mid(s[root]).key);
    assert NodeOK(s, g, root, n, root);
    if i < |s'| {
      if i == root {
        LeftDown(s, g, root, n, s', root);
      } else if i == |s| {
        RightDown(s, g, root, n, s', root);
      } else {
        OtherDown(s, g, root, n, s', root, i);
      }
      if g''[i].height > 0 {
        forall j | 0 <= j <= s''[i].count
          ensures KidOK(s'', g'', i, j)
        {
          assert KidOK(s', g', i, j);
          var c := Kid(s'[i], j);
          assert c != root && c != |s|;
        }
      }
    } else {
      assert s''[i] == Grown(n, i, root, |s|, Mid(s[root]));
      assert KidOK(s'', g'', i, 0) && KidOK(s'', g'', i, 1);
    }
  }

  lemma GrownUp(s: Store, g: Metas, root: nat, n: nat, s': Store, s'': Store, i: nat)
    requires Inv(s, g, root, n) && GrowsTo(s, s', s'', root) && 1 <= i < |s''|
    ensures UpOK(s'', GrowMetas(g, root, Mid(s[root]).key), |s| + 1, i)
  {
    var r := |s| + 1;
    assert NodeOK(s, g, root, n, root);
    assert Kid(s''[r], 0) == root && Kid(s''[r], 1) == |s|;
    if i < |s| && i != root {
      assert NodeOK(s, g, root, n, i);
      OtherUp(s, g, root, n, s', root, i);
      var p := s'[i].parent;
      var k :| 0 <= k <= s'[p].count && Kid(s'[p], k) == i;
      assert Kid(s''[p], k) == i;
    }
  }

  /** Splitting the root keeps the invariant, one level higher. */
  lemma GrowKeeps(s: Store, g: Metas, root: nat, n: nat, s': Store, s'': Store)
    requires Inv(s, g, root, n) && GrowsTo(s, s', s'', root)
    ensures Inv(s'', GrowMetas(g, root, Mid(s[root]).key), |s| + 1, n)
  {
    var g', r := GrowMetas(g, root, Mid(s[root]).key), |s| + 1;
    forall i | 1 <= i < |s''|
      ensures NodeOK(s'', g', r, n, i)
    {
      GrownDown(s, g, root, n, s', s'', i);
      GrownUp(s, g, root, n, s', s'', i);
    }
  }

  // ---------- what is stored ----------

  lemma SplitStored(s: Store, s': Store, x: nat, key: Key, record: Record)
    requires SplitTo(s, s', x)
    ensures Stored(s, key, record) <==> Stored(s', key, record) || (Mid(s[x]).key == key && Mid(s[x]).record == record)
  {
    SplitHas(s[x], |s|, key, record);
    if Stored(s, key, record) {
      var i :| 1 <= i < |s| && HasEntry(s[i], key, record);
      assert i != x ==> HasEntry(s'[i], key, record);
    }
    if Stored(s', key, record) {
      var i :| 1 <= i < |s'| && HasEntry(s'[i], key, record);
      assert i != x && i < |s| ==> HasEntry(s[i], key, record);
    }
  }

  lemma JoinStores(s: Store, s': Store, s'': Store, x: nat, k: nat, contents: map<Key, Record>)
    requires JoinsAt(s, s', s'', x, k) && s[x].parent != x && !Moved(s[x], s[x].parent) && Represents(s, contents)
    ensures Represents(s'', contents)
  {
    var p, e := s[x].parent, Mid(s[x]);
    forall key, record
      ensures Stored(s, key, record) <==> Stored(s'', key, record)
    {
      SplitStored(s, s', x, key, record);
      HasJoined(s[p], k, x, |s|, e, key, record);
      assert HasEntry(s''[p], key, record) <==> HasEntry(s'[p], key, record) || (key == e.key && record == e.record);
      if Stored(s', key, record) {
        var i :| 1 <= i < |s'| && HasEntry(s'[i], key, record);
        assert HasEntry(s''[i], key, record);
      }
      if Stored(s'', key, record) {
        var i :| 1 <= i < |s''| && HasEntry(s''[i], key, record);
        assert i != p ==> HasEntry(s'[i], key, record);
      }
    }
  }

  lemma GrowStores(s: Store, s': Store, s'': Store, x: nat, contents: map<Key, Record>)
    requires GrowsTo(s, s', s'', x) && Represents(s, contents)
    ensures Represents(s'', contents)
  {
    var r, e := |s| + 1, Mid(s[x]);
    forall key, record
      ensures Stored(s, key, record) <==> Stored(s'', key, record)
    {
      SplitStored(s, s', x, key, record);
      if Stored(s', key, record) {
        var i :| 1 <= i < |s'| && HasEntry(s'[i], key, record);
        assert HasEntry(s''[i], key, record);
      }
      assert s''[r].entries[0].key == e.key && s''[r].entries[0].record == e.record;
      if Stored(s'', key, record) {
        var i :| 1 <= i < |s''| && HasEntry(s''[i], key, record);
        assert i != r ==> HasEntry(s'[i], key, record);
      }
    }
  }

  // ---------- a new entry in a leaf ----------

  lemma OpenedLeaf(b: Block, m: Meta, k: nat, e: Entry)
    requires b.count < |b.entries| && k <= b.count && IsLeaf(b) && Ascending(b) && Inside(b, m)
    requires e.smaller == 0 && Between(m, e.key) && Linear(b, e.key, 0) == Down(k)
    ensures var r := Opened(b, k, e);
            IsLeaf(r) && Ascending(r) && Inside(r, m)
  {
    LinearMeans(b, e.key, 0);
    WiderKeys(b, Opened(b, k, e), m, k, e.key);
  }

  lemma LeafKeeps(s: Store, g: Metas, root: nat, n: nat, i: nat, k: nat, key: Key, record: Record)
    requires Inv(s, g, root, n) && 1 <= i < |s| && g[i].height == 0 && Between(g[i], key)
    requires s[i].count < |s[i].entries| && Linear(s[i], key, 0) == Down(k)
    ensures k <= s[i].count && Inv(s[i := Opened(s[i], k, Entry(0, key, record))], g, root, n)
  {
    assert NodeOK(s, g, root, n, i);
    LinearMeans(s[i], key, 0);
    OpenedLeaf(s[i], g[i], k, Entry(0, key, record));
    var s' := s[i := Opened(s[i], k, Entry(0, key, record))];
    forall j | 1 <= j < |s|
      ensures NodeOK(s', g, root, n, j)
    {
      assert NodeOK(s, g, root, n, j);
      if g[j].height > 0 {
        forall l | 0 <= l <= s[j].count
          ensures KidOK(s', g, j, l)
        {
          assert KidOK(s, g, j, l);
        }
      }
      if j != root {
        var p := s[j].parent;
        assert NodeOK(s, g, root, n, p);
        assert p != i;
      }
    }
  }

  lemma LeafStores(s: Store, i: nat, k: nat, key: Key, record: Record, contents: map<Key, Record>)
    requires 1 <= i < |s| && s[i].count < |s[i].entries| && k <= s[i].count && Represents(s, contents)
      && key !in contents
    ensures Represents(s[i := Opened(s[i], k, Entry(0, key, record))], contents[key := record])
  {
    var e := Entry(0, key, record);
    var s' := s[i := Opened(s[i], k, e)];
    forall key', record'
      ensures Stored(s', key', record') <==> Stored(s, key', record') || (key' == key && record' == record)
    {
      HasOpened(s[i], k, e, key', record');
      assert HasEntry(s'[i], key', record') <==> HasEntry(s[i], key', record') || (key' == key && record' == record);
      if Stored(s, key', record') {
        var j :| 1 <= j < |s| && HasEntry(s[j], key', record');
        assert HasEntry(s'[j], key', record');
      }
      if Stored(s', key', record') {
        var j :| 1 <= j < |s'| && HasEntry(s'[j], key', record');
        assert j != i ==> HasEntry(s[j], key', record');
      }
    }
  }

  // ---------- what a split means for the rest ----------

  /** Below height `h` nothing but parent links changed, and no height changed at all. */
  ghost predicate Spared(s: Store, g: Metas, s': Store, g': Metas, h: nat) {
    && |s| == |g| && |s'| == |g'| && |s| <= |s'|
    && (forall i :: 1 <= i < |s| ==> g'[i].height == g[i].height)
    && (forall i :: 1 <= i < |s| && g[i].height < h ==> g'[i] == g[i] && s'[i] == s[i].(parent := s'[i].parent))
  }

  /** The interval of `x` is now shared between `x` and `y`, and both have room. */
  ghost predicate Halved(s: Store, g: Metas, s': Store, g': Metas, x: nat, y: nat) {
    && |s| == |g| <= |s'| == |g'| && 1 <= x < |s| && 1 <= y < |s'| && |s[x].entries| >= 3
    && g'[x] == Meta(g[x].lo, Some(Mid(s[x]).key), g[x].height)
    && g'[y] == Meta(Some(Mid(s[x]).key), g[x].hi, g[x].height)
    && s'[x].count < |s[x].entries| && s'[y].count < |s[x].entries|
  }

  /** After `split_node`, the parent is as it was, and finds the place of the middle entry where it finds `x`. */
  lemma JoinStarts(s: Store, g: Metas, root: nat, n: nat, s': Store, x: nat) returns (k: nat)
    requires Inv(s, g, root, n) && SplitTo(s, s', x) && x != root
    ensures var p := s[x].parent;
            && 1 <= p < |s| && p != x && s'[p] == s[p] && Fits(s[p]) && |s[p].entries| == n && s[p].self == p
               && s'[x].parent == p
            && k <= s[p].count && Kid(s[p], k) == x && HasKid(s[p], x)
            && Linear(s[p], Mid(s[x]).key, 0) == Down(k)
            && forall j :: 0 <= j <= s[p].count && Kid(s[p], j) == x ==> j == k
  {
    var p := s[x].parent;
    assert NodeOK(s, g, root, n, x);
    k := TurnsTo(s, g, root, n, x, Mid(s[x]).key);
    assert NodeOK(s, g, root, n, p);
    if Moved(s[x], p) {
      MovedIs(s, g, root, n, x, p);
      assert false;
    }
    forall j | 0 <= j <= s[p].count && Kid(s[p], j) == x
      ensures j == k
    {
      OneSlot(s, g, root, n, p, j, k);
    }
  }

  lemma JoinSteps(s: Store, s': Store, x: nat, k: nat)
    requires SplitTo(s, s', x)
    requires var p := s[x].parent;
             && 1 <= p < |s| && p != x && s'[p] == s[p] && s[p].count < |s[p].entries| && k <= s[p].count
                && Kid(s[p], k) == x && s'[x].parent == p
    ensures var p, e := s[x].parent, Mid(s[x]).(smaller := x);
            JoinsAt(s, s', s'[p := Opened(SetKid(s[p], k, |s|), k, e)][x := s'[x].(parent := p)], x, k)
  {
    var p, e := s[x].parent, Mid(s[x]).(smaller := x);
    assert s'[x].(parent := p) == s'[x];
    assert s'[p := Opened(SetKid(s[p], k, |s|), k, e)][x := s'[x].(parent := p)] ==
      s'[p := Joined(s[p], k, x, |s|, Mid(s[x]))];
  }

  lemma JoinMeans(s: Store, g: Metas, root: nat, n: nat, s': Store, s'': Store, x: nat, k: nat,
                  contents: map<Key, Record>)
    requires Inv(s, g, root, n) && x != root && JoinsAt(s, s', s'', x, k) && Represents(s, contents)
    ensures var g' := SplitMetas(g, x, Mid(s[x]).key);
            Inv(s'', g', root, n) && Represents(s'', contents)
            && Spared(s, g, s'', g', g[x].height) && Halved(s, g, s'', g', x, |s|)
  {
    var p := s[x].parent;
    assert NodeOK(s, g, root, n, x) && NodeOK(s, g, root, n, p);
    JoinKeeps(s, g, root, n, s', s'', x, k);
    if Moved(s[x], p) {
      MovedIs(s, g, root, n, x, p);
    }
    JoinStores(s, s', s'', x, k, contents);
  }

  lemma GrowMeans(s: Store, g: Metas, root: nat, n: nat, s': Store, s'': Store, contents: map<Key, Record>)
    requires Inv(s, g, root, n) && GrowsTo(s, s', s'', root) && Represents(s, contents)
    ensures var g' := GrowMetas(g, root, Mid(s[root]).key);
            Inv(s'', g', |s| + 1, n) && Represents(s'', contents)
            && Spared(s, g, s'', g', g[root].height) && Halved(s, g, s'', g', root, |s|)
  {
    assert NodeOK(s, g, root, n, root);
    GrowKeeps(s, g, root, n, s', s'');
    GrowStores(s, s', s'', root, contents);
  }

  /** When the parent `p` of `x` has been split, whichever half is now the parent of `x` has room. */
  lemma NewParentHasRoom(s: Store, g: Metas, root: nat, s': Store, g': Metas, root': nat, n: nat, x: nat, y: nat)
    requires Inv(s, g, root, n) && Inv(s', g', root', n) && 1 <= x < |s| && x != root && s[x].count > 0
    requires Spared(s, g, s', g', g[x].height + 1) && Halved(s, g, s', g', s[x].parent, y) && s[s[x].parent].count == n
    ensures x != root' && 1 <= s'[x].parent < |s'| && s'[s'[x].parent].count < n
  {
    assert NodeOK(s, g, root, n, x);
    var p, key := s[x].parent, s[x].entries[0].key;
    assert NodeOK(s, g, root, n, p) && NodeOK(s', g', root', n, x) && NodeOK(s', g', root', n, p);
    var k := TurnsTo(s, g, root, n, x, key);
    if key == Mid(s[p]).key {
      KeysAreUnique(s, g, root, n, x, 0, p, Middle(n));
      assert false;
    }
    var k' := TurnsTo(s', g', root', n, x, key);
    LevelsArePartitioned(s', g', root', n, s'[x].parent, if Between(g'[p], key) then p else y, key);
  }

  /** First room above, then the split itself. */
  lemma SplitsCompose(s: Store, g: Metas, s1: Store, g1: Metas, s2: Store, g2: Metas, x: nat, y: nat)
    requires |s| == |g| && 1 <= x < |s|
    requires Spared(s, g, s1, g1, g[x].height + 1) && Spared(s1, g1, s2, g2, g[x].height)
      && Halved(s1, g1, s2, g2, x, y)
    ensures Spared(s, g, s2, g2, g[x].height) && Halved(s, g, s2, g2, x, y)
  {
  }

  lemma NothingHappened(s: Store, g: Metas, h: nat)
    requires |s| == |g|
    ensures Spared(s, g, s, g, h)
  {
  }

  lemma StillFull(s: Store, g: Metas, s': Store, g': Metas, x: nat)
    requires |s| == |g| && 1 <= x < |s| && Spared(s, g, s', g', g[x].height + 1)
    ensures |s'| == |g'| >= |s|
    ensures s'[x].count == s[x].count && s'[x].entries == s[x].entries && s'[x].self == s[x].self && g'[x] == g[x]
  {
  }

  /** The blocks it takes to give a node room: one for each full node on the way up, and one more if the root splits. */
  function Needed(s: Store, g: Metas, root: nat, n: nat, i: nat): nat
    requires Inv(s, g, root, n) && 1 <= i < |s|
    decreases g[root].height - g[i].height
  {
    ParentIsHigher(s, g, root, n, i);
    if s[i].count < n then 0 else if i == root then 2 else 1 + Needed(s, g, root, n, s[i].parent)
  }

  lemma NeededIs(s: Store, g: Metas, root: nat, n: nat, i: nat)
    requires Inv(s, g, root, n) && 1 <= i < |s|
    ensures Needed(s, g, root, n, i) ==
            if s[i].count < n then 0 else if i == root then 2 else 1 + ParentNeeds(s, g, root, n, i)
  {
  }

  function ParentNeeds(s: Store, g: Metas, root: nat, n: nat, i: nat): nat
    requires Inv(s, g, root, n) && 1 <= i < |s| && i != root
  {
    ParentIsHigher(s, g, root, n, i);
    Needed(s, g, root, n, s[i].parent)
  }

  /** The blocks it takes to insert a key: none if it is there, or if its leaf has room. */
  function NeededFor(s: Store, g: Metas, root: nat, n: nat, key: Key, contents: map<Key, Record>): nat
    requires Inv(s, g, root, n)
  {
    if key in contents then 0 else Needed(s, g, root, n, Find(s, g, root, n, root, key).location)
  }

  /** Searching again after a leaf has been split lands in a leaf with room. */
  lemma RoomForKey(s: Store, g: Metas, root: nat, s': Store, g': Metas, root': nat, n: nat, x: nat, y: nat, key: Key,
                   contents: map<Key, Record>)
    requires Inv(s, g, root, n) && Represents(s, contents) && Inv(s', g', root', n) && Represents(s', contents)
    requires 1 <= x < |s| && s[x].count == n && g[x].height == 0 && Between(g[x], key) && key !in contents
    requires Halved(s, g, s', g', x, y)
    ensures var r := Find(s', g', root', n, root', key);
            r.record.None? && s'[r.location].count < n
  {
    assert NodeOK(s, g, root, n, x);
    FindAgrees(s', g', root', n, contents, key);
    assert HasEntry(s[x], Mid(s[x]).key, Mid(s[x]).record);
    assert Stored(s, Mid(s[x]).key, Mid(s[x]).record);
    var l := if key < Mid(s[x]).key then x else y;
    assert Between(g'[l], key);
  }

  /** An absent key may go into the leaf that a search found for it. */
  lemma LeafTakes(s: Store, g: Metas, root: nat, n: nat, key: Key, record: Record, contents: map<Key, Record>)
    requires Inv(s, g, root, n) && Represents(s, contents) && key !in contents
    ensures var i := Find(s, g, root, n, root, key).location;
            && 1 <= i < |s| && s[i].self == i && |s[i].entries| == n && Fits(s[i]) && Linear(s[i], key, 0).Down?
            && (s[i].count < n ==>
              var s' := s[i := Opened(s[i], Linear(s[i], key, 0).slot, Entry(0, key, record))];
              Inv(s', g, root, n) && Represents(s', contents[key := record]))
  {
    var i := Find(s, g, root, n, root, key).location;
    FindAgrees(s, g, root, n, contents, key);
    assert NodeOK(s, g, root, n, i);
    LinearMeans(s[i], key, 0);
    var t := Linear(s[i], key, 0);
    if t.Hit? {
      assert HasEntry(s[i], key, s[i].entries[t.at].record);
      assert Stored(s, key, s[i].entries[t.at].record);
      assert false;
    }
    if s[i].count < n {
      LeafKeeps(s, g, root, n, i, t.slot, key, record);
      LeafStores(s, i, t.slot, key, record, contents);
    }
  }
}
