/** What `validate` looks at, and what it does not. */
module BtreeCheck {
  import opened Blocks
  import opened BtreeOrder

  /** Child links that lead to nodes of the file lead to lower ones, so that a recursion over them ends.  Nothing is
      said about keys, and links may lead out of the file. */
  ghost predicate Shaped(s: Store, g: Metas) {
    && |g| == |s|
    && forall i :: 1 <= i < |s| ==> LinksDown(s, g, i)
  }

  ghost predicate LinksDown(s: Store, g: Metas, i: nat)
    requires |g| == |s| && i < |s|
  {
    && Fits(s[i]) && s[i].self == i
    && forall k :: 0 <= k <= s[i].count && 0 < Kid(s[i], k) < |s| ==> g[Kid(s[i], k)].height < g[i].height
  }

  predicate AllBelow(b: Block, key: Key)
    requires Fits(b)
  {
    forall j :: 0 <= j < b.count ==> b.entries[j].key < key
  }

  predicate AllAbove(b: Block, key: Key)
    requires Fits(b)
  {
    forall j :: 0 <= j < b.count ==> key < b.entries[j].key
  }

  predicate KidBelow(s: Store, g: Metas, i: nat, k: nat)
    requires Shaped(s, g) && 1 <= i < |s| && k <= s[i].count
  {
    assert LinksDown(s, g, i);
    var c := Kid(s[i], k);
    c != 0 && k < s[i].count ==> c < |s| && assert LinksDown(s, g, c); AllBelow(s[c], s[i].entries[k].key)
  }

  predicate KidAbove(s: Store, g: Metas, i: nat, k: nat)
    requires Shaped(s, g) && 1 <= i < |s| && k <= s[i].count
  {
    assert LinksDown(s, g, i);
    var c := Kid(s[i], k);
    c != 0 && k > 0 ==> c < |s| && assert LinksDown(s, g, c); AllAbove(s[c], s[i].entries[k - 1].key)
  }

  predicate KidKnows(s: Store, g: Metas, i: nat, k: nat)
    requires Shaped(s, g) && 1 <= i < |s| && k <= s[i].count
  {
    assert LinksDown(s, g, i);
    var c := Kid(s[i], k);
    c != 0 ==> c < |s| && s[c].parent == s[i].self
  }

  predicate KidChecks(s: Store, g: Metas, i: nat, k: nat)
    requires Shaped(s, g) && 1 <= i < |s| && k <= s[i].count
    decreases g[i].height, 0
  {
    assert LinksDown(s, g, i);
    var c := Kid(s[i], k);
    c != 0 ==> c < |s| && Checks(s, g, c)
  }

  /** Keys in order; every child between the keys beside it, with the right parent, and in turn so. */
  predicate Checks(s: Store, g: Metas, i: nat)
    requires Shaped(s, g) && 1 <= i < |s|
    decreases g[i].height, 1
  {
    assert LinksDown(s, g, i);
    s[i].count == 0 || (
      && Ascending(s[i])
      && forall k :: 0 <= k <= s[i].count ==>
         KidBelow(s, g, i, k) && KidAbove(s, g, i, k) && KidKnows(s, g, i, k) && KidChecks(s, g, i, k))
  }

  lemma InvIsShaped(s: Store, g: Metas, root: nat, n: nat)
    requires Inv(s, g, root, n)
    ensures Shaped(s, g)
  {
    forall i | 1 <= i < |s|
      ensures LinksDown(s, g, i)
    {
      assert NodeOK(s, g, root, n, i);
      forall k | 0 <= k <= s[i].count && 0 < Kid(s[i], k) < |s|
        ensures g[Kid(s[i], k)].height < g[i].height
      {
        assert g[i].height > 0;
        assert KidOK(s, g, i, k);
      }
    }
  }

  lemma ChecksWhen(s: Store, g: Metas, i: nat)
    requires Shaped(s, g) && 1 <= i < |s|
    ensures Fits(s[i]) && s[i].count == 0 ==> Checks(s, g, i)
    ensures Fits(s[i]) && s[i].count > 0 && Ascending(s[i])
            && (forall k :: 0 <= k <= s[i].count ==> KidBelow(s, g, i, k))
            && (forall k :: 0 <= k <= s[i].count ==> KidAbove(s, g, i, k))
            && (forall k :: 0 <= k <= s[i].count ==> KidKnows(s, g, i, k))
            && (forall k :: 0 <= k <= s[i].count ==> KidChecks(s, g, i, k))
            ==> Checks(s, g, i)
    ensures Checks(s, g, i) ==> Fits(s[i]) && (s[i].count > 0 ==> Ascending(s[i]))
    ensures Checks(s, g, i) && s[i].count > 0 ==> forall k :: 0 <= k <= s[i].count ==>
              KidBelow(s, g, i, k) && KidAbove(s, g, i, k) && KidKnows(s, g, i, k) && KidChecks(s, g, i, k)
    ensures KidAbove(s, g, i, 0) && KidBelow(s, g, i, s[i].count)
  {
    assert LinksDown(s, g, i);
  }

  /** A well-formed tree passes, from every node. */
  lemma {:induction false} InvChecks(s: Store, g: Metas, root: nat, n: nat, i: nat)
    requires Inv(s, g, root, n) && 1 <= i < |s|
    ensures Shaped(s, g) && Checks(s, g, i)
    decreases g[i].height
  {
    InvIsShaped(s, g, root, n);
    assert NodeOK(s, g, root, n, i);
    assert LinksDown(s, g, i);
    forall k | 0 <= k <= s[i].count
      ensures KidBelow(s, g, i, k) && KidAbove(s, g, i, k) && KidKnows(s, g, i, k) && KidChecks(s, g, i, k)
    {
      if Kid(s[i], k) != 0 {
        assert KidOK(s, g, i, k);
        assert NodeOK(s, g, root, n, Kid(s[i], k));
        InvChecks(s, g, root, n, Kid(s[i], k));
      }
    }
  }

  // ---------- what passing says of the blocks ----------

  /** From node `i`, going down by these slots one after another, through nodes that are not empty, one comes to `c`. */
  predicate LeadTo(s: Store, i: nat, slots: seq<nat>, c: nat)
    decreases |slots|
  {
    if slots == [] then c == i
    else
      && i < |s| && Fits(s[i]) && s[i].count > 0 && slots[0] <= s[i].count
      && Kid(s[i], slots[0]) != 0 && LeadTo(s, Kid(s[i], slots[0]), slots[1..], c)
  }

  /** Node `c` is in the file, its keys ascend, and each child that is there is in the file, names `c` as its parent,
      and has its keys between those beside it. */
  predicate Proper(s: Store, c: nat) {
    && c < |s| && s[c].count <= |s[c].entries|
    && (s[c].count > 0 ==>
       && (forall j, k :: 0 <= j < k < s[c].count ==> s[c].entries[j].key < s[c].entries[k].key)
       && (forall k :: 0 <= k < s[c].count && s[c].entries[k].smaller != 0 ==>
             KidProper(s, c, s[c].entries[k].smaller, k))
       && (s[c].larger != 0 ==> KidProper(s, c, s[c].larger, s[c].count)))
  }

  predicate KidProper(s: Store, c: nat, d: nat, k: nat)
    requires c < |s| && k <= s[c].count <= |s[c].entries|
  {
    && d < |s| && s[d].parent == c && s[d].count <= |s[d].entries|
    && (k < s[c].count ==> forall j :: 0 <= j < s[d].count ==> s[d].entries[j].key < s[c].entries[k].key)
    && (k > 0 ==> forall j :: 0 <= j < s[d].count ==> s[c].entries[k - 1].key < s[d].entries[j].key)
  }

  ghost predicate AllProper(s: Store, i: nat) {
    forall slots, c :: LeadTo(s, i, slots, c) ==> Proper(s, c)
  }

  lemma ProperIs(s: Store, g: Metas, i: nat)
    requires Shaped(s, g) && 1 <= i < |s|
    ensures Fits(s[i])
    ensures Proper(s, i) <==> s[i].count == 0 || (Ascending(s[i]) && forall k :: 0 <= k <= s[i].count ==>
              KidBelow(s, g, i, k) && KidAbove(s, g, i, k) && KidKnows(s, g, i, k))
  {
    assert LinksDown(s, g, i);
    forall k | 0 <= k <= s[i].count
      ensures Kid(s[i], k) != 0 ==> (KidProper(s, i, Kid(s[i], k), k) <==>
                KidBelow(s, g, i, k) && KidAbove(s, g, i, k) && KidKnows(s, g, i, k))
    {
      if 0 < Kid(s[i], k) < |s| {
        assert LinksDown(s, g, Kid(s[i], k));
      }
    }
    forall k | 0 <= k < s[i].count
      ensures Kid(s[i], k) == s[i].entries[k].smaller
    {
    }
    assert Kid(s[i], s[i].count) == s[i].larger;
  }

  /** The check passes if and only if every node it comes to is proper. */
  lemma {:induction false} ChecksIff(s: Store, g: Metas, i: nat)
    requires Shaped(s, g) && 1 <= i < |s|
    ensures Checks(s, g, i) <==> AllProper(s, i)
    decreases g[i].height
  {
    assert LinksDown(s, g, i);
    ProperIs(s, g, i);
    assert LeadTo(s, i, [], i);
    if s[i].count > 0 && Proper(s, i) {
      forall k | 0 <= k <= s[i].count
        ensures KidChecks(s, g, i, k) <==> Kid(s[i], k) == 0 || AllProper(s, Kid(s[i], k))
      {
        if Kid(s[i], k) != 0 {
          assert KidKnows(s, g, i, k);
          ChecksIff(s, g, Kid(s[i], k));
        }
      }
      ProperBelow(s, i);
    }
  }

  lemma ProperBelow(s: Store, i: nat)
    requires i < |s| && Fits(s[i]) && s[i].count > 0
    ensures AllProper(s, i) <==> Proper(s, i) && forall k :: 0 <= k <= s[i].count ==>
              Kid(s[i], k) == 0 || AllProper(s, Kid(s[i], k))
  {
    if AllProper(s, i) {
      assert LeadTo(s, i, [], i);
      forall k, slots, c | 0 <= k <= s[i].count && Kid(s[i], k) != 0 && LeadTo(s, Kid(s[i], k), slots, c)
        ensures Proper(s, c)
      {
        assert ([k] + slots)[1..] == slots;
        assert LeadTo(s, i, [k] + slots, c);
      }
    } else {
      var slots, c :| LeadTo(s, i, slots, c) && !Proper(s, c);
      assert slots != [] ==> LeadTo(s, Kid(s[i], slots[0]), slots[1..], c);
    }
  }
}
