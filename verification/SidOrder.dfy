/** The order of security identifiers. */
module SidOrder {
  import opened Acl

  /** The six authority bytes, then the sub-authorities. */
  function Digits(s: Sid): (d: seq<int>)
    ensures |d| == 6 + |s.subs|
  {
    seq(6, i requires 0 <= i < 6 => s.authority[i] as int)
    + seq(|s.subs|, i requires 0 <= i < |s.subs| => s.subs[i] as int)
  }

  predicate Agree(a: seq<int>, b: seq<int>, k: nat)
    requires k <= |a| && k <= |b|
  {
    forall i :: 0 <= i < k ==> a[i] == b[i]
  }

  /** `a` and `b` agree on their first `k` digits and differ there, or `a` ends there. */
  predicate DiffersAt(a: seq<int>, b: seq<int>, k: nat) {
    k <= |a| && k < |b| && Agree(a, b, k) && (k == |a| || a[k] < b[k])
  }

  predicate LexLess(a: seq<int>, b: seq<int>) {
    exists k: nat :: k <= |a| && DiffersAt(a, b, k)
  }

  predicate Less(l: Sid, r: Sid) {
    LexLess(Digits(l), Digits(r))
  }

  lemma DigitsAt(s: Sid, i: nat)
    requires i < |Digits(s)|
    ensures Digits(s)[i] == if i < 6 then s.authority[i] as int else s.subs[i - 6] as int
  {
  }

  /** Once the digits before `k` agree and those at `k` do not, the order is decided. */
  lemma Decides(a: seq<int>, b: seq<int>, k: nat)
    requires k < |a| && k < |b| && Agree(a, b, k) && a[k] != b[k]
    ensures LexLess(a, b) <==> a[k] < b[k]
  {
    if a[k] < b[k] {
      assert DiffersAt(a, b, k);
    }
  }

  lemma Prefix(a: seq<int>, b: seq<int>)
    requires a < b
    ensures LexLess(a, b)
  {
    assert DiffersAt(a, b, |a|);
  }

  lemma NoLess(a: seq<int>, b: seq<int>)
    requires b <= a
    ensures !LexLess(a, b)
  {
  }

  /** What decides, on the fields: the first authority byte that differs, else the first sub-authority that differs,
      else the shorter of the two is the smaller. */
  lemma LessByFields(l: Sid, r: Sid, k: nat)
    ensures k < 6 && l.authority[..k] == r.authority[..k] && l.authority[k] != r.authority[k] ==>
      (Less(l, r) <==> l.authority[k] < r.authority[k])
    ensures l.authority == r.authority && k < |l.subs| && k < |r.subs| && l.subs[..k] == r.subs[..k]
            && l.subs[k] != r.subs[k] ==>
      (Less(l, r) <==> l.subs[k] < r.subs[k])
    ensures l.authority == r.authority && (l.subs <= r.subs || r.subs <= l.subs) ==>
      (Less(l, r) <==> |l.subs| < |r.subs|)
  {
    hide Less, LexLess;
    if k < 6 && l.authority[..k] == r.authority[..k] && l.authority[k] != r.authority[k] {
      LessByAuthority(l, r, k);
    }
    if l.authority == r.authority {
      LessBySubs(l, r, k);
    }
  }

  lemma LessByAuthority(l: Sid, r: Sid, k: nat)
    requires k < 6 && l.authority[..k] == r.authority[..k] && l.authority[k] != r.authority[k]
    ensures Less(l, r) <==> l.authority[k] < r.authority[k]
  {
    hide LexLess;
    var a, b := Digits(l), Digits(r);
    forall i | 0 <= i < k
      ensures a[i] == b[i]
    {
      assert l.authority[..k][i] == r.authority[..k][i];
    }
    Decides(a, b, k);
  }

  lemma LessBySubs(l: Sid, r: Sid, k: nat)
    requires l.authority == r.authority
    ensures k < |l.subs| && k < |r.subs| && l.subs[..k] == r.subs[..k] && l.subs[k] != r.subs[k] ==>
      (Less(l, r) <==> l.subs[k] < r.subs[k])
    ensures l.subs <= r.subs || r.subs <= l.subs ==> (Less(l, r) <==> |l.subs| < |r.subs|)
  {
    hide LexLess;
    var a, b := Digits(l), Digits(r);
    if k < |l.subs| && k < |r.subs| && l.subs[..k] == r.subs[..k] && l.subs[k] != r.subs[k] {
      forall i | 0 <= i < 6 + k
        ensures a[i] == b[i]
      {
        assert i >= 6 ==> l.subs[..k][i - 6] == r.subs[..k][i - 6];
      }
      Decides(a, b, 6 + k);
    }
    if l.subs <= r.subs && |l.subs| < |r.subs| {
      assert a == b[..|a|];
      Prefix(a, b);
    } else if r.subs <= l.subs {
      assert b == a[..|b|];
      NoLess(a, b);
    }
  }

  /** `operator<`. */
  method OperatorLess(l: Sid, r: Sid) returns (less: bool)
    ensures less <==> Less(l, r)
  {
    hide Digits, LexLess;
    ghost var a, b := Digits(l), Digits(r);
    for i := 0 to 6
      invariant Agree(a, b, i)
    {
      DigitsAt(l, i);
      DigitsAt(r, i);
      if l.authority[i] < r.authority[i] {
        Decides(a, b, i);
        return true;
      } else if l.authority[i] > r.authority[i] {
        Decides(a, b, i);
        return false;
      }
    }
    for i := 0 to |r.subs|
      invariant i <= |l.subs| && Agree(a, b, 6 + i)
    {
      if |l.subs| == i {
        Prefix(a, b);
        return true;
      }
      DigitsAt(l, 6 + i);
      DigitsAt(r, 6 + i);
      if l.subs[i] < r.subs[i] {
        Decides(a, b, 6 + i);
        return true;
      } else if l.subs[i] > r.subs[i] {
        Decides(a, b, 6 + i);
        return false;
      }
    }
    NoLess(a, b);
    return false;
  }

  lemma Transitive(a: seq<int>, b: seq<int>, c: seq<int>)
    requires LexLess(a, b) && LexLess(b, c)
    ensures LexLess(a, c)
  {
    var j: nat :| j <= |a| && DiffersAt(a, b, j);
    var k: nat :| k <= |b| && DiffersAt(b, c, k);
    var m := if j < k then j else k;
    assert DiffersAt(a, c, m);
  }

  lemma {:induction false} FirstDifference(a: seq<int>, b: seq<int>, k: nat)
    requires k <= |a| && k <= |b| && Agree(a, b, k)
    ensures a == b || LexLess(a, b) || LexLess(b, a)
    decreases |a| - k
  {
    if k == |a| {
      if k < |b| {
        assert DiffersAt(a, b, k);
      }
    } else if k == |b| {
      assert DiffersAt(b, a, k);
    } else if a[k] == b[k] {
      FirstDifference(a, b, k + 1);
    } else {
      assert DiffersAt(a, b, k) || DiffersAt(b, a, k);
    }
  }

  predicate SameSid(l: Sid, r: Sid) {
    l.authority == r.authority && l.subs == r.subs
  }

  lemma DigitsDetermine(l: Sid, r: Sid)
    ensures Digits(l) == Digits(r) <==> SameSid(l, r)
  {
    if Digits(l) == Digits(r) {
      forall i | 0 <= i < 6
        ensures l.authority[i] == r.authority[i]
      {
        DigitsAt(l, i);
        DigitsAt(r, i);
      }
      assert l.authority == r.authority;
      forall i | 0 <= i < |l.subs|
        ensures l.subs[i] == r.subs[i]
      {
        DigitsAt(l, 6 + i);
        DigitsAt(r, 6 + i);
      }
      assert l.subs == r.subs;
    }
  }

  /** A strict total order: exactly one of less, equal and greater, and transitive. */
  lemma StrictTotalOrder(a: Sid, b: Sid, c: Sid)
    ensures SameSid(a, b) <==> !Less(a, b) && !Less(b, a)
    ensures !(Less(a, b) && Less(b, a))
    ensures Less(a, b) && Less(b, c) ==> Less(a, c)
  {
    DigitsDetermine(a, b);
    FirstDifference(Digits(a), Digits(b), 0);
    NoLess(Digits(a), Digits(a));
    if Less(a, b) && Less(b, a) {
      Transitive(Digits(a), Digits(b), Digits(a));
    }
    if Less(a, b) && Less(b, c) {
      Transitive(Digits(a), Digits(b), Digits(c));
    }
  }

  /** With the same authority, a proper prefix of the sub-authorities is the smaller one. */
  lemma PrefixIsLess(l: Sid, r: Sid)
    requires l.authority == r.authority && l.subs < r.subs
    ensures Less(l, r)
  {
    var a, b := Digits(l), Digits(r);
    assert a == b[..|a|];
    Prefix(a, b);
  }
}
