/**
 * Entries as bytes: writing one into a buffer, reading one back, and whole lists.
 *
 * The layouts are those of [MS-DTYP], sections 2.4.2.2 (SID) and 2.4.4 (entries).
 */
module AclBytes {
  import opened Wrappers
  import opened Acl

  type Bytes = seq<Byte>

  // ---------- numbers ----------

  function Le16(x: Word): (b: Bytes)
    ensures |b| == 2
  {
    [(x % 256) as Byte, (x / 256 % 256) as Byte]
  }

  function Le32(x: Word): (b: Bytes)
    ensures |b| == 4
  {
    [(x % 256) as Byte, (x / 256 % 256) as Byte, (x / 65536 % 256) as Byte, (x / 16777216) as Byte]
  }

  function Read16(q: Bytes, pos: nat): Word
    requires pos + 2 <= |q|
  {
    q[pos] as int + 256 * q[pos + 1] as int
  }

  function Read32(q: Bytes, pos: nat): Word
    requires pos + 4 <= |q|
  {
    q[pos] as int + 256 * q[pos + 1] as int + 65536 * q[pos + 2] as int + 16777216 * q[pos + 3] as int
  }

  lemma ReadsBack32(x: Word)
    ensures Read32(Le32(x), 0) == x
  {
    var a, b, c := x / 256, x / 65536, x / 16777216;
    assert b == a / 256 && c == b / 256;
    assert x == 256 * a + x % 256 && a == 256 * b + a % 256 && b == 256 * c + b % 256;
  }

  /** `b` stands in `q` at `pos`. */
  predicate Stands(q: Bytes, pos: nat, b: Bytes) {
    pos + |b| <= |q| && q[pos .. pos + |b|] == b
  }

  lemma StandsAt(q: Bytes, pos: nat, b: Bytes, i: nat)
    requires Stands(q, pos, b) && i < |b|
    ensures q[pos + i] == b[i]
  {
    assert q[pos .. pos + |b|][i] == b[i];
  }

  lemma Stands32(q: Bytes, pos: nat, x: Word)
    requires Stands(q, pos, Le32(x))
    ensures Read32(q, pos) == x
  {
    StandsAt(q, pos, Le32(x), 0);
    StandsAt(q, pos, Le32(x), 1);
    StandsAt(q, pos, Le32(x), 2);
    StandsAt(q, pos, Le32(x), 3);
    ReadsBack32(x);
  }

  lemma Stands16(q: Bytes, pos: nat, x: Word)
    requires Stands(q, pos, Le16(x)) && x < 65536
    ensures Read16(q, pos) == x
  {
    StandsAt(q, pos, Le16(x), 0);
    StandsAt(q, pos, Le16(x), 1);
  }

  lemma SliceOfSlice(q: Bytes, pos: nat, n: nat, i: nat, j: nat)
    requires i <= j <= n && pos + n <= |q|
    ensures q[pos .. pos + n][i .. j] == q[pos + i .. pos + j]
  {
    var p := q[pos .. pos + n];
    forall k | 0 <= k < j - i
      ensures p[i .. j][k] == q[pos + i .. pos + j][k]
    {
      assert p[i + k] == q[pos + i + k];
    }
  }

  /** A piece of a piece. */
  lemma StandsInside(q: Bytes, pos: nat, a: Bytes, b: Bytes, c: Bytes)
    requires Stands(q, pos, a + b + c)
    ensures Stands(q, pos, a) && Stands(q, pos + |a|, b) && Stands(q, pos + |a| + |b|, c)
  {
    var w := a + b + c;
    assert a == w[..|a|] && b == w[|a| .. |a| + |b|] && c == w[|a| + |b| ..];
    SliceOfSlice(q, pos, |w|, 0, |a|);
    SliceOfSlice(q, pos, |w|, |a|, |a| + |b|);
    SliceOfSlice(q, pos, |w|, |a| + |b|, |w|);
  }

  // ---------- security identifiers ----------

  predicate ValidSid(s: Sid) {
    s.revision == 1 && |s.subs| <= MAX_SUB_AUTHORITIES
  }

  function SidLength(s: Sid): nat {
    8 + 4 * |s.subs|
  }

  function Words(ws: seq<Word>): (b: Bytes)
    ensures |b| == 4 * |ws|
  {
    if ws == [] then [] else Le32(ws[0]) + Words(ws[1..])
  }

  function SidBytes(s: Sid): (b: Bytes)
    requires ValidSid(s)
    ensures |b| == SidLength(s)
  {
    [s.revision, |s.subs| as Byte] + s.authority + Words(s.subs)
  }

  function ReadWords(q: Bytes, pos: nat, n: nat): (ws: seq<Word>)
    requires pos + 4 * n <= |q|
    ensures |ws| == n
    decreases n
  {
    if n == 0 then [] else [Read32(q, pos)] + ReadWords(q, pos + 4, n - 1)
  }

  /** Copying a SID out of a buffer; one that is not valid is refused. */
  function ReadSid(q: Bytes, pos: nat): Option<Sid> {
    if pos + 8 > |q| then None
    else
      var n := q[pos + 1] as int;
      if q[pos] != 1 || n > MAX_SUB_AUTHORITIES || pos + 8 + 4 * n > |q| then None
      else Some(Sid(q[pos], q[pos + 2 .. pos + 8], ReadWords(q, pos + 8, n)))
  }

  lemma {:induction false} WordsReadBack(q: Bytes, pos: nat, ws: seq<Word>)
    requires Stands(q, pos, Words(ws))
    ensures ReadWords(q, pos, |ws|) == ws
    decreases |ws|
  {
    if ws != [] {
      assert Words(ws) == Le32(ws[0]) + Words(ws[1..]) + [];
      StandsInside(q, pos, Le32(ws[0]), Words(ws[1..]), []);
      Stands32(q, pos, ws[0]);
      WordsReadBack(q, pos + 4, ws[1..]);
    }
  }

  lemma SidReadsBack(q: Bytes, pos: nat, s: Sid)
    requires ValidSid(s) && Stands(q, pos, SidBytes(s))
    ensures ReadSid(q, pos) == Some(s)
  {
    StandsInside(q, pos, [s.revision, |s.subs| as Byte], s.authority, Words(s.subs));
    WordsReadBack(q, pos + 8, s.subs);
    StandsAt(q, pos, [s.revision, |s.subs| as Byte], 0);
    StandsAt(q, pos, [s.revision, |s.subs| as Byte], 1);
  }

  // ---------- the image of an entry ----------

  const ALLOWED: Byte := 0
  const DENIED: Byte := 1
  const AUDIT: Byte := 2
  const ALLOWED_OBJECT: Byte := 5
  const DENIED_OBJECT: Byte := 6
  const AUDIT_OBJECT: Byte := 7

  const OBJECT_TYPE_PRESENT := 1
  const INHERITED_OBJECT_TYPE_PRESENT := 2

  /** Where the fields of an entry start; SID_START is that of an object entry with both GUIDs. */
  const MASK_AT := 4
  const PLAIN_SID_AT := 8
  const FLAGS_AT := 8
  const OBJECT_TYPE_AT := 12
  const INHERITED_OBJECT_TYPE_AT := 28
  const SID_START := 44
  const GUID_SIZE := 16

  function AceType(a: Ace): Byte {
    match a
    case Access(_, _, _, allow) => if allow then ALLOWED else DENIED
    case AccessObject(_, _, _, allow, _, _) => if allow then ALLOWED_OBJECT else DENIED_OBJECT
    case Audit(_, _, _, _, _) => AUDIT
    case AuditObject(_, _, _, _, _, _, _) => AUDIT_OBJECT
  }

  predicate IsMark(bit: Byte) {
    bit == SUCCESSFUL_ACCESS || bit == FAILED_ACCESS
  }

  /** The bit is set or cleared. */
  function Marked(flags: Byte, bit: Byte, on: bool): (r: Byte)
    requires IsMark(bit)
    ensures Has(r, bit) == on
    ensures forall other :: IsMark(other) && other != bit ==> Has(r, other) == Has(flags, other)
    ensures r == flags <==> Has(flags, bit) == on
  {
    if Has(flags, bit) == on then flags else if on then flags + bit else flags - bit
  }

  /** An audit entry for an object writes its two marks whatever its flags say. */
  function WrittenFlags(a: Ace): Byte {
    if a.AuditObject? then Marked(Marked(a.flags, SUCCESSFUL_ACCESS, a.success), FAILED_ACCESS, a.failure) else a.flags
  }

  function Guids(g: Option<Guid>): (b: Bytes)
    ensures |b| == if g.Some? then GUID_SIZE else 0
  {
    if g.Some? then g.value else []
  }

  function Presence(a: Ace): Word
    requires IsObjectAce(a)
  {
    (if a.objectType.Some? then OBJECT_TYPE_PRESENT else 0)
    + (if a.inheritedType.Some? then INHERITED_OBJECT_TYPE_PRESENT else 0)
  }

  function Middle(a: Ace): (b: Bytes)
    ensures |b| == if IsObjectAce(a) then 4 + |Guids(a.objectType)| + |Guids(a.inheritedType)| else 0
  {
    if IsObjectAce(a) then Le32(Presence(a)) + Guids(a.objectType) + Guids(a.inheritedType) else []
  }

  /** `length()`, computed downwards from the largest layout as the code does. */
  function Length(a: Ace): int {
    if IsObjectAce(a) then
      SID_START - (if a.objectType.None? then GUID_SIZE else 0) - (if a.inheritedType.None? then GUID_SIZE else 0)
      + SidLength(a.sid)
    else
      PLAIN_SID_AT + SidLength(a.sid)
  }

  function Header(a: Ace): (b: Bytes)
    requires 0 <= Length(a) < 65536
    ensures |b| == 8
  {
    [AceType(a), WrittenFlags(a)] + Le16(Length(a)) + Le32(a.mask)
  }

  function Image(a: Ace): (b: Bytes)
    requires ValidSid(a.sid)
    ensures |b| == Length(a)
  {
    Header(a) + Middle(a) + SidBytes(a.sid)
  }

  lemma HeaderReadsBack(a: Ace, q: Bytes)
    requires ValidSid(a.sid) && Stands(q, 0, Image(a))
    ensures |q| >= Length(a) >= 8 && q[0] == AceType(a) && q[1] == WrittenFlags(a)
    ensures Read16(q, 2) == Length(a) && Read32(q, MASK_AT) == a.mask
    ensures Stands(q, 8, Middle(a)) && ReadSid(q, 8 + |Middle(a)|) == Some(a.sid)
  {
    StandsInside(q, 0, Header(a), Middle(a), SidBytes(a.sid));
    StandsInside(q, 0, [AceType(a), WrittenFlags(a)], Le16(Length(a)), Le32(a.mask));
    StandsAt(q, 0, [AceType(a), WrittenFlags(a)], 0);
    StandsAt(q, 0, [AceType(a), WrittenFlags(a)], 1);
    Stands16(q, 2, Length(a));
    Stands32(q, MASK_AT, a.mask);
    SidReadsBack(q, 8 + |Middle(a)|, a.sid);
  }

  // ---------- the same in numbers ----------

  /** A SID in a buffer. */
  ghost predicate SidAt(q: Bytes, pos: nat, s: Sid) {
    && pos + 8 + 4 * |s.subs| <= |q|
    && q[pos] == 1 == s.revision && q[pos + 1] as int == |s.subs| <= 15
    && q[pos + 2 .. pos + 8] == s.authority
    && forall i :: 0 <= i < |s.subs| ==>
         var at := pos + 8 + 4 * i;
         s.subs[i] == q[at] as int + 0x100 * q[at + 1] as int
                      + 0x1_0000 * q[at + 2] as int + 0x100_0000 * q[at + 3] as int
  }

  lemma {:induction false} ReadWordsAt(q: Bytes, pos: nat, n: nat, i: nat)
    requires pos + 4 * n <= |q| && i < n
    ensures ReadWords(q, pos, n)[i] == Read32(q, pos + 4 * i)
    decreases n
  {
    if i > 0 {
      ReadWordsAt(q, pos + 4, n - 1, i - 1);
    }
  }

  /** A SID is read exactly where one stands. */
  lemma ReadSidIs(q: Bytes, pos: nat, s: Sid)
    ensures ReadSid(q, pos) == Some(s) <==> SidAt(q, pos, s)
  {
    if pos + 8 <= |q| && q[pos + 1] as int == |s.subs| && pos + 8 + 4 * |s.subs| <= |q| {
      var words := ReadWords(q, pos + 8, |s.subs|);
      forall i | 0 <= i < |s.subs|
        ensures words[i] == Read32(q, pos + 8 + 4 * i)
      {
        ReadWordsAt(q, pos + 8, |s.subs|, i);
      }
      if SidAt(q, pos, s) {
        assert words == s.subs;
      }
    }
  }

  /** Where the SID of an entry stands. */
  function SidOffset(a: Ace): nat {
    match a
    case Access(_, _, _, _) => 8
    case Audit(_, _, _, _, _) => 8
    case AccessObject(_, _, _, _, t, i) => 12 + (if t.Some? then 16 else 0) + (if i.Some? then 16 else 0)
    case AuditObject(_, _, _, _, _, t, i) => 12 + (if t.Some? then 16 else 0) + (if i.Some? then 16 else 0)
  }

  /** The GUIDs of an object entry, packed. */
  predicate TypesAt(q: Bytes, a: Ace)
    requires IsObjectAce(a) && 12 <= SidOffset(a) <= |q|
  {
    && (a.objectType.Some? <==> q[8] as int % 2 == 1)
    && (a.inheritedType.Some? <==> q[8] as int / 2 % 2 == 1)
    && (a.objectType.Some? ==> q[12..28] == a.objectType.value)
    && (a.inheritedType.Some? ==> (if a.objectType.Some? then q[28..44] else q[12..28]) == a.inheritedType.value)
  }

  /** The bytes are those of an entry: its type, flags and mask, its GUIDs, its SID. */
  ghost predicate LaidOut(q: Bytes, a: Ace) {
    && SidAt(q, SidOffset(a), a.sid)
    && q[0] as int == (match a
                       case Access(_, _, _, allow) => if allow then 0 else 1
                       case Audit(_, _, _, _, _) => 2
                       case AccessObject(_, _, _, allow, _, _) => if allow then 5 else 6
                       case AuditObject(_, _, _, _, _, _, _) => 7)
    && (if a.AuditObject? then
          && q[1] as int % 64 == a.flags as int % 64
          && (a.success <==> q[1] as int / 64 % 2 == 1) && (a.failure <==> q[1] as int / 128 == 1)
        else q[1] == a.flags)
    && a.mask == q[4] as int + 0x100 * q[5] as int + 0x1_0000 * q[6] as int + 0x100_0000 * q[7] as int
    && (a.AccessObject? || a.AuditObject? ==> TypesAt(q, a))
  }

  /** The image of an entry is laid out so, it says its own length, and no presence bit but two is set. */
  lemma ImageIsLaidOut(a: Ace)
    requires ValidSid(a.sid)
    ensures var q := Image(a);
            && LaidOut(q, a) && |q| == SidOffset(a) + 8 + 4 * |a.sid.subs|
            && q[2] as int + 256 * q[3] as int == |q|
            && (IsObjectAce(a) ==> q[8] < 4 && q[9] == q[10] == q[11] == 0)
  {
    hide Header, Middle, SidBytes, Stands, SidAt, ReadSid, TypesAt;
    var q := Image(a);
    Itself(q);
    HeaderReadsBack(a, q);
    ReadSidIs(q, SidOffset(a), a.sid);
    if IsObjectAce(a) {
      MiddleIsLaidOut(q, a);
    }
  }

  lemma MiddleIsLaidOut(q: Bytes, a: Ace)
    requires IsObjectAce(a) && Stands(q, 8, Middle(a))
    ensures SidOffset(a) == 8 + |Middle(a)| <= |q| && TypesAt(q, a) && q[8] < 4 && q[9] == q[10] == q[11] == 0
  {
    StandsInside(q, 8, Le32(Presence(a)), Guids(a.objectType), Guids(a.inheritedType));
    StandsAt(q, 8, Le32(Presence(a)), 0);
    StandsAt(q, 8, Le32(Presence(a)), 1);
    StandsAt(q, 8, Le32(Presence(a)), 2);
    StandsAt(q, 8, Le32(Presence(a)), 3);
  }

  lemma Itself(q: Bytes)
    ensures Stands(q, 0, q)
  {
  }

  // ---------- writing ----------

  /** `b` written over `q` at `pos`. */
  function Patched(q: Bytes, pos: nat, b: Bytes): (r: Bytes)
    requires pos + |b| <= |q|
    ensures |r| == |q|
  {
    q[..pos] + b + q[pos + |b| ..]
  }

  lemma PatchedAt(q: Bytes, pos: nat, b: Bytes)
    requires pos + |b| <= |q|
    ensures Stands(Patched(q, pos, b), pos, b)
    ensures b == [] ==> Patched(q, pos, b) == q
  {
  }

  lemma PatchedBeside(q: Bytes, pos: nat, b: Bytes, at: nat, c: Bytes)
    requires pos + |b| <= |q| && Stands(q, at, c) && (at + |c| <= pos || pos + |b| <= at)
    ensures Stands(Patched(q, pos, b), at, c)
  {
    var r := Patched(q, pos, b);
    forall i | 0 <= i < |c|
      ensures r[at .. at + |c|][i] == c[i]
    {
      StandsAt(q, at, c, i);
      assert r[at + i] == q[at + i];
    }
  }

  lemma StandTogether(q: Bytes, pos: nat, a: Bytes, b: Bytes)
    requires Stands(q, pos, a) && Stands(q, pos + |a|, b)
    ensures Stands(q, pos, a + b)
  {
    assert q[pos .. pos + |a| + |b|] == q[pos .. pos + |a|] + q[pos + |a| .. pos + |a| + |b|];
  }

  method Put(buf: array<Byte>, pos: nat, b: Bytes)
    requires pos + |b| <= buf.Length
    modifies buf
    ensures buf[..] == Patched(old(buf[..]), pos, b)
  {
    forall i | 0 <= i < |b| {
      buf[pos + i] := b[i];
    }
  }

  /** The fields every entry has. */
  method PutHeader(buf: array<Byte>, a: Ace)
    requires 8 <= buf.Length == Length(a) < 65536
    modifies buf
    ensures Stands(buf[..], 0, [AceType(a)]) && Stands(buf[..], 1, [a.flags])
    ensures Stands(buf[..], 2, Le16(Length(a))) && Stands(buf[..], MASK_AT, Le32(a.mask))
  {
    hide Patched, Stands, Le16, Le32;
    ghost var q := buf[..];
    var size, flags, kind, mask := Le16(buf.Length % 65536), [a.flags], [AceType(a)], Le32(a.mask);
    Put(buf, 2, size);
    ghost var q1 := buf[..];
    Put(buf, 1, flags);
    ghost var q2 := buf[..];
    Put(buf, 0, kind);
    ghost var q3 := buf[..];
    Put(buf, MASK_AT, mask);
    PatchedAt(q, 2, size);
    PatchedBeside(q1, 1, flags, 2, size);
    PatchedBeside(q2, 0, kind, 2, size);
    PatchedBeside(q3, MASK_AT, mask, 2, size);
    PatchedAt(q1, 1, flags);
    PatchedBeside(q2, 0, kind, 1, flags);
    PatchedBeside(q3, MASK_AT, mask, 1, flags);
    PatchedAt(q2, 0, kind);
    PatchedBeside(q3, MASK_AT, mask, 0, kind);
    PatchedAt(q3, MASK_AT, mask);
  }

  /** The marks of an audit entry for an object. */
  method PutMarks(buf: array<Byte>, a: Ace)
    requires 8 <= buf.Length && a.AuditObject? && Stands(buf[..], 1, [a.flags])
    modifies buf
    ensures Stands(buf[..], 1, [WrittenFlags(a)])
    ensures forall at: nat, c :: Stands(old(buf[..]), at, c) && (at + |c| <= 1 || 2 <= at) ==> Stands(buf[..], at, c)
  {
    hide Patched, Marked;
    ghost var q := buf[..];
    StandsAt(q, 1, [a.flags], 0);
    var marked := Marked(buf[1], SUCCESSFUL_ACCESS, a.success);
    Put(buf, 1, [marked]);
    ghost var q1 := buf[..];
    PatchedAt(q, 1, [marked]);
    StandsAt(q1, 1, [marked], 0);
    var both := Marked(buf[1], FAILED_ACCESS, a.failure);
    Put(buf, 1, [both]);
    PatchedAt(q1, 1, [both]);
    forall at: nat, c | Stands(q, at, c) && (at + |c| <= 1 || 2 <= at)
      ensures Stands(buf[..], at, c)
    {
      PatchedBeside(q, 1, [marked], at, c);
      PatchedBeside(q1, 1, [both], at, c);
    }
  }

  /** The GUIDs that are there, packed, and the flags that say which. */
  method PutMiddle(buf: array<Byte>, a: Ace) returns (pb: int)
    requires IsObjectAce(a) && buf.Length == Length(a) < 65536
    modifies buf
    ensures pb == 8 + |Middle(a)| <= buf.Length && Stands(buf[..], 8, Middle(a))
    ensures forall at: nat, c :: Stands(old(buf[..]), at, c) && at + |c| <= 8 ==> Stands(buf[..], at, c)
  {
    hide Patched, Stands, Le32;
    ghost var q := buf[..];
    ghost var o, i := Guids(a.objectType), Guids(a.inheritedType);
    var flags: Word := 0;
    pb := SID_START;
    if a.objectType.None? {
      pb := pb - GUID_SIZE;
    } else {
      Put(buf, OBJECT_TYPE_AT, a.objectType.value);
      flags := flags + OBJECT_TYPE_PRESENT;
    }
    ghost var q1 := buf[..];
    PatchedAt(q, OBJECT_TYPE_AT, o);
    assert q1 == Patched(q, OBJECT_TYPE_AT, o);
    if a.inheritedType.None? {
      pb := pb - GUID_SIZE;
    } else {
      Put(buf, if a.objectType.Some? then INHERITED_OBJECT_TYPE_AT else OBJECT_TYPE_AT, a.inheritedType.value);
      flags := flags + INHERITED_OBJECT_TYPE_PRESENT;
    }
    ghost var q2, at := buf[..], OBJECT_TYPE_AT + |o|;
    PatchedAt(q1, at, i);
    assert q2 == Patched(q1, at, i);
    Put(buf, FLAGS_AT, Le32(flags));
    MiddleStands(q, o, i, Le32(flags));
  }

  lemma MiddleStands(q: Bytes, o: Bytes, i: Bytes, f: Bytes)
    requires |f| == 4 && OBJECT_TYPE_AT + |o| + |i| <= |q|
    ensures var r := Patched(Patched(Patched(q, OBJECT_TYPE_AT, o), OBJECT_TYPE_AT + |o|, i), FLAGS_AT, f);
            && Stands(r, FLAGS_AT, f + o + i)
            && forall at: nat, c :: Stands(q, at, c) && at + |c| <= FLAGS_AT ==> Stands(r, at, c)
  {
    hide Patched, Stands;
    var q1 := Patched(q, OBJECT_TYPE_AT, o);
    var q2 := Patched(q1, OBJECT_TYPE_AT + |o|, i);
    var r := Patched(q2, FLAGS_AT, f);
    PatchedAt(q, OBJECT_TYPE_AT, o);
    PatchedBeside(q1, OBJECT_TYPE_AT + |o|, i, OBJECT_TYPE_AT, o);
    PatchedBeside(q2, FLAGS_AT, f, OBJECT_TYPE_AT, o);
    PatchedAt(q1, OBJECT_TYPE_AT + |o|, i);
    PatchedBeside(q2, FLAGS_AT, f, OBJECT_TYPE_AT + |o|, i);
    PatchedAt(q2, FLAGS_AT, f);
    StandTogether(r, FLAGS_AT, f, o);
    assert |f + o| == |f| + |o|;
    StandTogether(r, FLAGS_AT, f + o, i);
    forall at: nat, c | Stands(q, at, c) && at + |c| <= FLAGS_AT
      ensures Stands(r, at, c)
    {
      PatchedBeside(q, OBJECT_TYPE_AT, o, at, c);
      PatchedBeside(q1, OBJECT_TYPE_AT + |o|, i, at, c);
      PatchedBeside(q2, FLAGS_AT, f, at, c);
    }
  }

  lemma HeaderStands(q: Bytes, a: Ace)
    requires 0 <= Length(a) < 65536
    requires Stands(q, 0, [AceType(a)]) && Stands(q, 1, [WrittenFlags(a)])
    requires Stands(q, 2, Le16(Length(a))) && Stands(q, MASK_AT, Le32(a.mask))
    ensures Stands(q, 0, Header(a))
  {
    hide Stands, Le16, Le32;
    StandTogether(q, 0, [AceType(a)], [WrittenFlags(a)]);
    assert [AceType(a)] + [WrittenFlags(a)] == [AceType(a), WrittenFlags(a)];
    StandTogether(q, 0, [AceType(a), WrittenFlags(a)], Le16(Length(a)));
    StandTogether(q, 0, [AceType(a), WrittenFlags(a)] + Le16(Length(a)), Le32(a.mask));
  }

  /** Fills a buffer of `length()` bytes. */
  method GetAce(a: Ace) returns (buf: array<Byte>)
    requires ValidSid(a.sid)
    ensures fresh(buf) && buf.Length == Length(a)
    ensures buf[..] == Image(a)
    ensures LaidOut(buf[..], a) && buf.Length == SidOffset(a) + 8 + 4 * |a.sid.subs|
    ensures buf[2] as int + 256 * buf[3] as int == buf.Length
    ensures IsObjectAce(a) ==> buf[8] < 4 && buf[9] == buf[10] == buf[11] == 0
  {
    hide Header, Middle, SidBytes, Le16, Le32, Marked, AceType, Stands, Patched, LaidOut;
    NoMiddle(a);
    var length := Length(a);
    buf := new Byte[length](_ => 0);
    PutHeader(buf, a);
    var pb := PLAIN_SID_AT;
    if IsObjectAce(a) {
      if a.AuditObject? {
        PutMarks(buf, a);
      }
      pb := PutMiddle(buf, a);
    }
    ghost var q := buf[..];
    HeaderStands(q, a);
    EmptyStands(q, 8);
    var space := length - pb;
    assert space == SidLength(a.sid);
    Put(buf, pb, SidBytes(a.sid));
    PatchedAt(q, pb, SidBytes(a.sid));
    PatchedBeside(q, pb, SidBytes(a.sid), 0, Header(a));
    PatchedBeside(q, pb, SidBytes(a.sid), 8, Middle(a));
    StandTogether(buf[..], 0, Header(a), Middle(a));
    StandTogether(buf[..], 0, Header(a) + Middle(a), SidBytes(a.sid));
    StandsAlone(buf[..], Image(a));
    ImageIsLaidOut(a);
  }

  lemma StandsAlone(q: Bytes, b: Bytes)
    requires Stands(q, 0, b) && |q| == |b|
    ensures q == b
  {
  }

  lemma EmptyStands(q: Bytes, pos: nat)
    requires pos <= |q|
    ensures Stands(q, pos, [])
  {
  }

  lemma NoMiddle(a: Ace)
    ensures !IsObjectAce(a) ==> Middle(a) == []
  {
  }
}
