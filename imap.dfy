/** Vocabulary shared by the IMAP4rev1 store: Go's 32-bit unsigned integers,
    the system flags of section 2.3.2 of RFC 3501, the STORE operations of
    section 6.4.6, the STATUS items of section 6.3.10, and the errors the
    reference store reports. */
module Imap {

  /** Go's `uint32`. */
  type Uint32 = x: int | 0 <= x < 0x1_0000_0000

  /** Go's conversion `uint32(x)` of a non-negative `int`, and the wrap-around
      of `x++` on a `uint32`: the value modulo 2^32. */
  function ToUint32(x: nat): (r: Uint32)
    ensures x < 0x1_0000_0000 ==> r == x
  {
    x % 0x1_0000_0000
  }

  /** A flag is a string token such as `\Seen` or a client keyword. */
  type Flag = string

  const Answered: Flag := "\\Answered"
  const Flagged: Flag := "\\Flagged"
  const Deleted: Flag := "\\Deleted"
  const Seen: Flag := "\\Seen"
  const Draft: Flag := "\\Draft"
  /** Server-maintained: a client never sets it (section 2.3.2 of RFC 3501). */
  const Recent: Flag := "\\Recent"

  /** The operation of a STORE command: a string in the library, so any other
      string is a possible (unknown) operation. */
  type FlagsOp = string

  const SetFlags: FlagsOp := "FLAGS"
  const AddFlags: FlagsOp := "+FLAGS"
  const RemoveFlags: FlagsOp := "-FLAGS"

  /** A STATUS data item name. */
  type StatusItem = string

  const StatusMessages: StatusItem := "MESSAGES"
  const StatusRecent: StatusItem := "RECENT"
  const StatusUidNext: StatusItem := "UIDNEXT"
  const StatusUidValidity: StatusItem := "UIDVALIDITY"
  const StatusUnseen: StatusItem := "UNSEEN"

  /** The reply to a STATUS or SELECT: the items asked for and the values
      the store filled in; an item not asked for stays 0. */
  datatype MailboxStatus = MailboxStatus(
    name: string,
    items: seq<StatusItem>,
    flags: seq<Flag>,
    permanentFlags: seq<Flag>,
    unseenSeqNum: Uint32,
    messages: Uint32,
    recent: Uint32,
    uidNext: Uint32,
    uidValidity: Uint32,
    unseen: Uint32)

  /** A status for mailbox `name` asking for `items`, with nothing filled in. */
  function NewMailboxStatus(name: string, items: seq<StatusItem>): (s: MailboxStatus)
  {
    MailboxStatus(name, items, [], [], 0, 0, 0, 0, 0, 0)
  }

  /** A client's sequence set, as UIDs or as sequence numbers; the store only
      asks whether an id belongs to it. */
  type SeqSet = set<Uint32>

  datatype Error =
    | NoSuchMailbox
    | MailboxAlreadyExists
    | CannotDeleteInbox
    | BadUsernameOrPassword

  /** A Go `(value, error)` pair where exactly one is meaningful; an
      error-only return is a `Result<()>`. */
  datatype Result<T> = Ok(value: T) | Err(error: Error)
}
