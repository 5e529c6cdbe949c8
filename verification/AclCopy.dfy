/** Reading entries back, whole lists, and which lists survive the trip. */
module AclCopy {
  import opened Wrappers
  import opened Acl
  import opened AclOrder
  import opened AclBytes

  // ---------- one entry ----------

  /** The constructors of audit entries add the marks, and never take one away. */
  function AddMarks(flags: Byte, success: bool, failure: bool): Byte {
    var s := if success then Marked(flags, SUCCESSFUL_ACCESS, true) else flags;
    if failure then Marked(s, FAILED_ACCESS, true) else s
  }

  /** An entry as its constructor leaves it. */
  predicate Made(a: Ace) {
    && ValidSid(a.sid)
    && (a.Audit? || a.AuditObject? ==> a.flags == AddMarks(a.flags, a.success, a.failure))
  }

  function ReadGuid(q: Bytes, pos: nat): Guid
    requires pos + GUID_SIZE <= |q|
  {
    q[pos .. pos + GUID_SIZE]
  }

  datatype Types = Types(objectType: Option<Guid>, inheritedType: Option<Guid>, pb: nat)

  /** The GUIDs of an object entry, and where its SID starts. */
  function ReadTypes(q: Bytes): (r: Option<Types>)
    requires 12 <= |q|
  {
    var flags := Read32(q, FLAGS_AT);
    var typed, inherited := flags % 2 == 1, flags / 2 % 2 == 1;
    var pb := SID_START - (if typed then 0 else GUID_SIZE) - (if inherited then 0 else GUID_SIZE);
    if pb > |q| then None
    else
      Some(Types(if typed then Some(ReadGuid(q, OBJECT_TYPE_AT)) else None,
                 if inherited then Some(ReadGuid(q, if typed then INHERITED_OBJECT_TYPE_AT else OBJECT_TYPE_AT))
                   else None,
                 pb))
  }

  datatype Reading = Entry(ace: Ace) | Skipped | Refused

  /** The entry at the start of `q`.  A type that this kind of list does not hold is skipped; a bad SID is refused. */
  function Decode(discretionary: bool, q: Bytes): Reading {
    if |q| < 8 then Refused
    else
      var kind, flags, mask := q[0], q[1], Read32(q, MASK_AT);
      var success, failure := Has(flags, SUCCESSFUL_ACCESS), Has(flags, FAILED_ACCESS);
      if kind == (if discretionary then ALLOWED else AUDIT) || (discretionary && kind == DENIED) then
        var sid := ReadSid(q, PLAIN_SID_AT);
        if sid.None? then Refused
        else if discretionary then Entry(Access(sid.value, mask, flags, kind == ALLOWED))
        else Entry(Audit(sid.value, mask, AddMarks(flags, success, failure), success, failure))
      else if kind == (if discretionary then ALLOWED_OBJECT else AUDIT_OBJECT)
        || (discretionary && kind == DENIED_OBJECT) then
        var t := if |q| >= 12 then ReadTypes(q) else None;
        if t.None? then Refused
        else
          var sid := ReadSid(q, t.value.pb);
          if sid.None? then Refused
          else if discretionary then
            Entry(AccessObject(sid.value, mask, flags, kind == ALLOWED_OBJECT, t.value.objectType,
              t.value.inheritedType))
          else Entry(AuditObject(sid.value, mask, AddMarks(flags, success, failure), success, failure,
            t.value.objectType, t.value.inheritedType))
      else Skipped
  }

  lemma TypesReadBack(a: Ace, q: Bytes)
    requires IsObjectAce(a) && Stands(q, 8, Middle(a))
    ensures |q| >= 12 && ReadTypes(q) == Some(Types(a.objectType, a.inheritedType, 8 + |Middle(a)|))
  {
    StandsInside(q, 8, Le32(Presence(a)), Guids(a.objectType), Guids(a.inheritedType));
    Stands32(q, 8, Presence(a));
  }

  lemma ReadTypesIs(q: Bytes, a: Ace)
    requires 12 <= |q| && IsObjectAce(a)
    ensures SidOffset(a) <= |q| && TypesAt(q, a) <==>
              ReadTypes(q) == Some(Types(a.objectType, a.inheritedType, SidOffset(a)))
    ensures ReadTypes(q).Some? && ReadTypes(q).value.objectType == a.objectType
            && ReadTypes(q).value.inheritedType == a.inheritedType
            ==> ReadTypes(q).value.pb == SidOffset(a)
  {
    var flags := Read32(q, FLAGS_AT);
    assert flags % 2 == q[8] as int % 2 && flags / 2 % 2 == q[8] as int / 2 % 2;
  }

  /** What reading gives, for any bytes whatever: an entry exactly when the bytes are laid out as that entry, which a
      kind of list either holds or skips. */
  lemma DecodeReads(discretionary: bool, q: Bytes, a: Ace)
    ensures Decode(discretionary, q) == Entry(a) <==>
              && LaidOut(q, a) && discretionary == (a.Access? || a.AccessObject?)
              && (a.Audit? || a.AuditObject? ==>
                 && q[1] == a.flags && (a.success <==> q[1] as int / 64 % 2 == 1)
                 && (a.failure <==> q[1] as int / 128 == 1))
    ensures Decode(discretionary, q).Skipped? <==>
              |q| >= 8 && q[0] as int !in (if discretionary then {0, 1, 5, 6} else {2, 7})
  {
    hide ReadSid, TypesAt, ReadTypes;
    ReadSidIs(q, SidOffset(a), a.sid);
    if |q| >= 12 && IsObjectAce(a) {
      ReadTypesIs(q, a);
    }
  }

  /** Every access entry comes back as it was: all four choices of GUIDs, every SID. */
  lemma AccessRoundTrip(a: AccessAce, rest: Bytes)
    requires ValidSid(a.sid)
    ensures Decode(true, Image(a) + rest) == Entry(a)
  {
    var q := Image(a) + rest;
    assert Stands(q, 0, Image(a));
    HeaderReadsBack(a, q);
    if IsObjectAce(a) {
      TypesReadBack(a, q);
    }
  }

  /** What the marks of an audit entry say after a trip: what the written flags say. */
  function Heard(a: Ace): Ace
    requires a.Audit? || a.AuditObject?
  {
    var f := WrittenFlags(a);
    a.(flags := f, success := Has(f, SUCCESSFUL_ACCESS), failure := Has(f, FAILED_ACCESS))
  }

  lemma AuditTrip(a: Ace, rest: Bytes)
    requires (a.Audit? || a.AuditObject?) && ValidSid(a.sid)
    ensures Decode(false, Image(a) + rest) == Entry(Heard(a))
  {
    var q := Image(a) + rest;
    assert Stands(q, 0, Image(a));
    HeaderReadsBack(a, q);
    if IsObjectAce(a) {
      TypesReadBack(a, q);
    }
  }

  /** An audit entry comes back as it was exactly when its flags carry no mark that it does not ask for. */
  lemma AuditRoundTrip(a: Ace, rest: Bytes)
    requires (a.Audit? || a.AuditObject?) && Made(a)
    ensures Decode(false, Image(a) + rest) == Entry(a) <==>
              (Has(a.flags, SUCCESSFUL_ACCESS) ==> a.success) && (Has(a.flags, FAILED_ACCESS) ==> a.failure)
  {
    AuditTrip(a, rest);
    MadeMarks(a);
  }

  lemma MadeMarks(a: Ace)
    requires (a.Audit? || a.AuditObject?) && Made(a)
    ensures (a.success ==> Has(a.flags, SUCCESSFUL_ACCESS)) && (a.failure ==> Has(a.flags, FAILED_ACCESS))
  {
  }

  /** One that does not: a mark in the flags that is not asked for.  Plain entries gain it, object entries lose it. */
  lemma AuditTripLoses(sid: Sid, t: Option<Guid>)
    requires ValidSid(sid)
    ensures Made(AuditObject(sid, 0, SUCCESSFUL_ACCESS, false, false, t, None))
      && Made(Audit(sid, 0, SUCCESSFUL_ACCESS, false, false))
    ensures Decode(false, Image(AuditObject(sid, 0, SUCCESSFUL_ACCESS, false, false, t, None)))
            == Entry(AuditObject(sid, 0, 0, false, false, t, None))
    ensures Decode(false, Image(Audit(sid, 0, SUCCESSFUL_ACCESS, false, false)))
            == Entry(Audit(sid, 0, SUCCESSFUL_ACCESS, true, false))
  {
    hide Image, Decode, ValidSid;
    var a := AuditObject(sid, 0, SUCCESSFUL_ACCESS, false, false, t, None);
    var b := Audit(sid, 0, SUCCESSFUL_ACCESS, false, false);
    assert Image(a) + [] == Image(a) && Image(b) + [] == Image(b);
    AuditTrip(a, []);
    AuditTrip(b, []);
  }

  // ---------- from list to list ----------

  const GUID_NULL: Guid := [0, 0, 0, 0, 0, 0, 0, 0, 0, 0, 0, 0, 0, 0, 0, 0]

  /** What the accessors report of a GUID, read as a presence again. */
  function Reported(g: Option<Guid>): Option<Guid> {
    var shown := if g.Some? then g.value else GUID_NULL;
    if shown != GUID_NULL then Some(shown) else None
  }

  /** Copying an entry of one list into another, by way of the accessors. */
  function CopyEntry(a: Ace): Ace {
    if a.Access? then a
    else if a.AccessObject? then
      AccessObject(a.sid, a.mask, a.flags, a.allow, Reported(a.objectType), Reported(a.inheritedType))
    else
      var success, failure := Has(a.flags, SUCCESSFUL_ACCESS), Has(a.flags, FAILED_ACCESS);
      var flags := AddMarks(a.flags, success, failure);
      if a.Audit? then Audit(a.sid, a.mask, flags, success, failure)
      else AuditObject(a.sid, a.mask, flags, success, failure, Reported(a.objectType), Reported(a.inheritedType))
  }

  predicate AllZero(g: Guid) {
    forall i :: 0 <= i < 16 ==> g[i] == 0
  }

  /** What a copy keeps of any entry: all but the GUIDs that are zero and the marks, which become those of the flags. */
  lemma CopyMeans(a: Ace)
    ensures var c := CopyEntry(a);
            && c.sid == a.sid && c.mask == a.mask && c.flags == a.flags
            && (c.Access? <==> a.Access?) && (c.AccessObject? <==> a.AccessObject?) && (c.Audit? <==> a.Audit?)
            && (a.Access? || a.AccessObject? ==> c.allow == a.allow)
            && (a.Audit? || a.AuditObject? ==>
               && (c.success <==> a.flags as int / 64 % 2 == 1) && (c.failure <==> a.flags as int / 128 == 1))
            && (a.AccessObject? || a.AuditObject? ==>
               && c.objectType == (if a.objectType.Some? && AllZero(a.objectType.value) then None else a.objectType)
               && c.inheritedType ==
                  (if a.inheritedType.Some? && AllZero(a.inheritedType.value) then None else a.inheritedType))
  {
    forall g: Guid
      ensures AllZero(g) <==> g == GUID_NULL
    {
      assert AllZero(g) ==> forall i :: 0 <= i < 16 ==> g[i] == GUID_NULL[i];
    }
  }

  /** A copy is faithful exactly when no GUID that is there is the null GUID, and no mark is there unasked. */
  lemma CopyIsFaithful(a: Ace)
    requires Made(a)
    ensures CopyEntry(a) == a <==>
              && (IsObjectAce(a) ==> a.objectType != Some(GUID_NULL) && a.inheritedType != Some(GUID_NULL))
              && (a.Audit? || a.AuditObject? ==>
                 (Has(a.flags, SUCCESSFUL_ACCESS) ==> a.success) && (Has(a.flags, FAILED_ACCESS) ==> a.failure))
  {
    if a.Audit? || a.AuditObject? {
      MadeMarks(a);
    }
  }

  // ---------- whole lists ----------

  predicate AllValid(list: seq<Ace>) {
    forall i :: 0 <= i < |list| ==> ValidSid(list[i].sid)
  }

  function Images(list: seq<Ace>): Bytes
    requires AllValid(list)
  {
    if list == [] then [] else Image(list[0]) + Images(list[1..])
  }

  /** Entry after entry; each says how long it is. */
  function DecodeAll(discretionary: bool, q: Bytes, count: nat): Option<seq<Ace>>
    decreases count
  {
    if count == 0 then Some([])
    else if |q| < 4 || Read16(q, 2) > |q| then None
    else
      var first := Decode(discretionary, q);
      var rest := DecodeAll(discretionary, q[Read16(q, 2) ..], count - 1);
      if first.Refused? then None
      else if first.Skipped? then rest
      else Before([first.ace], rest)
  }

  function Before(first: seq<Ace>, rest: Option<seq<Ace>>): Option<seq<Ace>> {
    if rest.None? then None else Some(first + rest.value)
  }

  lemma BeforeAgain(first: seq<Ace>, a: Ace, rest: Option<seq<Ace>>)
    ensures Before(first, Before([a], rest)) == Before(first + [a], rest)
  {
    if rest.Some? {
      assert first + ([a] + rest.value) == first + [a] + rest.value;
    }
  }

  lemma BeforeNothing(rest: Option<seq<Ace>>)
    ensures Before([], rest) == rest
  {
    if rest.Some? {
      assert [] + rest.value == rest.value;
    }
  }

  lemma SizeAt(q: Bytes, at: nat)
    requires at + 4 <= |q|
    ensures Read16(q[at..], 2) == Read16(q, at + 2)
  {
  }

  /** The loop that reads a list. */
  method CopyAcl(discretionary: bool, q: Bytes, count: nat) returns (list: Option<seq<Ace>>)
    ensures list == DecodeAll(discretionary, q, count)
  {
    hide Decode;
    var entries: seq<Ace> := [];
    var at := 0;
    assert q[0..] == q;
    BeforeNothing(DecodeAll(discretionary, q, count));
    for i := 0 to count
      invariant 0 <= at <= |q|
      invariant DecodeAll(discretionary, q, count) == Before(entries, DecodeAll(discretionary, q[at..], count - i))
    {
      if |q| - at < 4 || Read16(q, at + 2) > |q| - at {
        return None;
      }
      SizeAt(q, at);
      var size := Read16(q, at + 2);
      assert q[at..][size..] == q[at + size ..];
      var entry := Decode(discretionary, q[at..]);
      if entry.Refused? {
        return None;
      }
      if entry.Entry? {
        BeforeAgain(entries, entry.ace, DecodeAll(discretionary, q[at + size ..], count - i - 1));
        entries := entries + [entry.ace];
      }
      at := at + size;
    }
    assert entries + [] == entries;
    list := Some(entries);
  }

  predicate Discretionary(list: seq<Ace>) {
    forall i :: 0 <= i < |list| ==> list[i].Access? || list[i].AccessObject?
  }

  lemma FirstRoundTrip(a: AccessAce, rest: Bytes)
    requires ValidSid(a.sid)
    ensures var q := Image(a) + rest;
            && |q| >= 4 && Read16(q, 2) == Length(a) <= |q|
            && q[Length(a) ..] == rest && Decode(true, q) == Entry(a)
  {
    var q := Image(a) + rest;
    assert Stands(q, 0, Image(a));
    HeaderReadsBack(a, q);
    AccessRoundTrip(a, rest);
  }

  /** A written discretionary list reads back as it was. */
  lemma {:induction false} ListRoundTrip(list: seq<Ace>)
    requires AllValid(list) && Discretionary(list)
    ensures DecodeAll(true, Images(list), |list|) == Some(list)
  {
    hide Image, Decode, Read16, Length;
    if list != [] {
      FirstRoundTrip(list[0], Images(list[1..]));
      ListRoundTrip(list[1..]);
      assert list == [list[0]] + list[1..];
    }
  }

  predicate SystemList(list: seq<Ace>) {
    forall i :: 0 <= i < |list| ==> list[i].Audit? || list[i].AuditObject?
  }

  lemma FirstAuditTrip(a: Ace, rest: Bytes)
    requires ValidSid(a.sid) && (a.Audit? || a.AuditObject?)
    ensures var q := Image(a) + rest;
            && |q| >= 4 && Read16(q, 2) == Length(a) <= |q|
            && q[Length(a) ..] == rest && Decode(false, q) == Entry(Heard(a))
  {
    var q := Image(a) + rest;
    assert Stands(q, 0, Image(a));
    HeaderReadsBack(a, q);
    AuditTrip(a, rest);
  }

  /** A written system list comes back entry by entry as it was heard. */
  lemma {:induction false} AuditListTrip(list: seq<Ace>)
    requires AllValid(list) && SystemList(list)
    ensures var r := DecodeAll(false, Images(list), |list|);
            r.Some? && |r.value| == |list| && forall i :: 0 <= i < |list| ==> r.value[i] == Heard(list[i])
  {
    hide Image, Decode, Read16, Length;
    if list != [] {
      FirstAuditTrip(list[0], Images(list[1..]));
      AuditListTrip(list[1..]);
    }
  }

  // ---------- writing a list ----------

  function Entries(q: seq<Slot>): (list: seq<Ace>)
    requires Full(q)
    ensures |list| == |q| && forall i :: 0 <= i < |q| ==> list[i] == q[i].value
  {
    seq(|q|, i requires 0 <= i < |q| => q[i].value)
  }

  function TotalLength(q: seq<Slot>): int
    requires Full(q)
  {
    if q == [] then 0 else TotalLength(q[..|q| - 1]) + Length(q[|q| - 1].value)
  }

  lemma {:induction false} TotalWithout(q: seq<Slot>, k: nat)
    requires Full(q) && k < |q|
    ensures TotalLength(q) == Length(q[k].value) + TotalLength(q[..k] + q[k + 1 ..])
    decreases |q|
  {
    var without, n := q[..k] + q[k + 1 ..], |q| - 1;
    if k == n {
      assert without == q[..n];
    } else {
      TotalWithout(q[..n], k);
      assert without[..n - 1] == q[..n][..k] + q[..n][k + 1 ..];
    }
  }

  lemma Without(q: seq<Slot>, k: nat)
    requires k < |q|
    ensures multiset(q[..k] + q[k + 1 ..]) == multiset(q) - multiset{q[k]}
  {
    assert q == q[..k] + [q[k]] + q[k + 1 ..];
  }

  lemma {:induction false} TotalOfPermutation(p: seq<Slot>, q: seq<Slot>)
    requires Full(p) && Full(q) && multiset(p) == multiset(q)
    ensures TotalLength(p) == TotalLength(q)
    decreases |p|
  {
    if p == [] {
      assert |multiset(q)| == 0;
    } else {
      var n := |p| - 1;
      assert p[n] in multiset(q);
      var k :| 0 <= k < |q| && q[k] == p[n];
      TotalWithout(q, k);
      Without(q, k);
      Without(p, n);
      assert p[..n] + p[n + 1 ..] == p[..n];
      TotalOfPermutation(p[..n], q[..k] + q[k + 1 ..]);
    }
  }

  lemma {:induction false} TotalGrows(q: seq<Slot>, i: nat)
    requires Full(q) && i < |q|
    ensures TotalLength(q[..i]) + Length(q[i].value) == TotalLength(q[..i + 1]) <= TotalLength(q)
    decreases |q| - i
  {
    assert q[..i + 1][..i] == q[..i];
    if i + 1 < |q| {
      TotalGrows(q, i + 1);
    } else {
      assert q[..i + 1] == q;
    }
  }

  lemma {:induction false} ImagesAppend(list: seq<Ace>, a: Ace)
    requires AllValid(list) && ValidSid(a.sid)
    ensures AllValid(list + [a]) && Images(list + [a]) == Images(list) + Image(a)
  {
    hide Image, Length, ValidSid;
    if list == [] {
      assert list + [a] == [a];
    } else {
      ImagesAppend(list[1..], a);
      assert (list + [a])[1..] == list[1..] + [a];
    }
  }

  method AddUpLengths(a: array<Slot>) returns (length: nat)
    requires Full(a[..])
    ensures length == TotalLength(a[..])
  {
    hide Length;
    var sum := 0;
    for i := 0 to a.Length
      invariant sum == TotalLength(a[..][..i])
    {
      TotalGrows(a[..], i);
      sum := sum + Length(a[i].value);
    }
    assert a[..][..a.Length] == a[..];
    NotNegative(a[..]);
    return sum;
  }

  lemma {:induction false} NotNegative(q: seq<Slot>)
    requires Full(q)
    ensures TotalLength(q) >= 0
  {
    if q != [] {
      NotNegative(q[..|q| - 1]);
    }
  }

  /** Entry after entry into a buffer that they fill exactly. */
  method WriteEntries(a: array<Slot>, buf: array<Byte>)
    requires Full(a[..]) && AllValid(Entries(a[..])) && buf.Length == TotalLength(a[..])
    modifies buf
    ensures buf[..] == Images(Entries(a[..]))
  {
    hide Length, Image, ValidSid;
    ghost var q := a[..];
    var at := 0;
    for i := 0 to a.Length
      invariant at == TotalLength(q[..i]) && 0 <= at <= buf.Length
      invariant AllValid(Entries(q[..i])) && buf[..at] == Images(Entries(q[..i]))
    {
      assert ValidSid(Entries(q)[i].sid);
      TotalGrows(q, i);
      NotNegative(q[..i]);
      var image := GetAce(a[i].value);
      ghost var written := buf[..at];
      Put(buf, at, image[..]);
      assert buf[..at + image.Length] == written + image[..];
      ImagesAppend(Entries(q[..i]), q[i].value);
      assert Entries(q[..i + 1]) == Entries(q[..i]) + [q[i].value];
      at := at + image.Length;
    }
    assert q[..a.Length] == q && buf[..at] == buf[..];
  }

  lemma ValidityPermutes(p: seq<Slot>, q: seq<Slot>)
    requires Full(p) && Full(q) && multiset(p) == multiset(q) && AllValid(Entries(p))
    ensures AllValid(Entries(q))
  {
    forall i | 0 <= i < |q|
      ensures ValidSid(q[i].value.sid)
    {
      assert q[i] in multiset(p);
      var k :| 0 <= k < |p| && p[k] == q[i];
      assert ValidSid(Entries(p)[k].sid);
    }
  }

  /** The entries of a list as bytes: the length is added up first, then the list is put in order and written. */
  method GetPacl(a: array<Slot>) returns (buf: array<Byte>)
    requires Full(a[..]) && AllValid(Entries(a[..]))
    modifies a
    ensures Full(a[..]) && Sorted(a[..]) && multiset(a[..]) == multiset(old(a[..]))
    ensures AllValid(Entries(a[..])) && buf[..] == Images(Entries(a[..]))
    ensures DecodeAll(true, buf[..], a.Length) == Some(Entries(a[..]))
  {
    ghost var before := a[..];
    var length := AddUpLengths(a);
    buf := new Byte[length](_ => 0);
    PrepareAcesForAcl(a);
    TotalOfPermutation(before, a[..]);
    ValidityPermutes(before, a[..]);
    WriteEntries(a, buf);
    ListRoundTrip(Entries(a[..]));
  }
}
