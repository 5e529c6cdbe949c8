/** Security identifiers and access control entries. */
module Acl {
  import opened Wrappers

  newtype Byte = x: int | 0 <= x < 256

  type Word = x: int | 0 <= x < 0x1_0000_0000

  /** A GUID is sixteen bytes nobody here looks into. */
  type Guid = g: seq<Byte> | |g| == 16 witness seq(16, _ => 0)

  type Authority = a: seq<Byte> | |a| == 6 witness seq(6, _ => 0)

  const MAX_SUB_AUTHORITIES := 15

  datatype Sid = Sid(revision: Byte, authority: Authority, subs: seq<Word>)

  datatype Ace =
    | Access(sid: Sid, mask: Word, flags: Byte, allow: bool)
    | AccessObject(sid: Sid, mask: Word, flags: Byte, allow: bool, objectType: Option<Guid>,
      inheritedType: Option<Guid>)
    | Audit(sid: Sid, mask: Word, flags: Byte, success: bool, failure: bool)
    | AuditObject(sid: Sid, mask: Word, flags: Byte, success: bool, failure: bool, objectType: Option<Guid>,
      inheritedType: Option<Guid>)

  const INHERITED_ACE: Byte := 0x10
  const SUCCESSFUL_ACCESS: Byte := 0x40
  const FAILED_ACCESS: Byte := 0x80

  /** One bit of a byte; `bit` is a power of two. */
  predicate Has(flags: Byte, bit: Byte)
    requires bit > 0
  {
    flags / bit % 2 == 1
  }

  function IsObjectAce(a: Ace): bool {
    a.AccessObject? || a.AuditObject?
  }
}
