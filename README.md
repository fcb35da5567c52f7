# In-memory IMAP mailbox store

A Dafny model of the reference in-memory backend of the go-imap IMAP4rev1
server (RFC 3501). It has four parts:

- **Flag merge** (`BackendUtil`). This is the algorithm behind STORE FLAGS / +FLAGS / -FLAGS
  (section 6.4.6 of RFC 3501).
  - `Merge` states the result on sequences.
  - `UpdateFlags` computes it the way the Go code does: in place over the array that
    holds the current flag list. Each Go `append` writes into that array when its
    result fits, and otherwise copies everything into fresh storage and writes nothing
    into the old array. ADD and REMOVE append one flag at a time. SET appends the
    whole operand in one call.
- **Messages** (`Messages`). Spec functions over a mailbox's ordered message list:
  - the next UID (largest + 1, wrapping like a `uint32`);
  - the first unseen message;
  - EXPUNGE's filter;
  - the messages a sequence set selects;
  - the result of a flag update, of COPY, and of MOVE.
- **Store objects** (`Memory`):
  - `Mailbox` is a class. The operations update its `messages` and `subscribed` fields
    in place. Its `attributes` and `uidValidity` are set only when a mailbox is created:
    by the constructor, or by the new mailbox a rename builds. They never change after
    that, so a mailbox's UIDVALIDITY is fixed for its lifetime.
  - `User` owns a mutable name-to-mailbox table.
  - `Backend` owns a mutable username-to-user registry with auto-registering LOGIN.
  - The `Mailbox` methods are proved against the `Messages` functions, whose own
    properties are proved as lemmas. The `User` and `Backend` methods state their new
    table or registry directly in their ensures.
- **Shared vocabulary** (`Imap`):
  - `uint32`, the system flags, the STORE operations and the STATUS items;
  - the status reply;
  - the error kinds.

The behaviour is modelled as the code has it, including:
- UIDs can be reused after the highest one is expunged.
- MOVE expunges every `\Deleted` message of the source, not only the moved ones.
- A COPY or MOVE into the mailbox itself visits only the messages present at the start.
- RENAME overwrites an existing `newName`, and renaming a mailbox other than INBOX to its
  own name removes it.
- The first LOGIN under an unknown name registers the user and still fails.

## Model

| member | source | states |
|---|---|---|
| `BackendUtil.UpdateFlags` | backend/backendutil/flags.go:8-60 | the slice `out[..m]` returned equals `Merge` of the old current list; the storage is `current` itself or fresh; SET and ADD reuse `current` exactly when the result fits, and then leave `current[m..]` untouched; ADD never writes below `n`; a SET that outgrows `current` leaves it as it was except for a `\Recent` written to index 0; REMOVE always reuses `current` and leaves `current[m..]` untouched; an unknown operation returns `current` untouched |
| `BackendUtil.SetInPlace` | backend/backendutil/flags.go:15-24 | the SET branch over the array yields `Merge(cur, SetFlags, flags)`: one `\Recent` if present, then the operand; the result is in `current` exactly when it fits there, with `current[m..]` untouched, else in fresh storage, and then `current` is as it was except for a `\Recent` written to index 0 |
| `BackendUtil.AddInPlace` | backend/backendutil/flags.go:25-41 | the ADD branch over the array yields the current list followed by the operand flags the scan of `current` did not find; `current[..n]` is never overwritten, and the result stays in `current` exactly when it fits, with `current[m..]` untouched |
| `BackendUtil.AddOne` | backend/backendutil/flags.go:29-40 | one turn of the ADD loop appends the operand flag exactly when the scan of the original `current[..n]` misses it, and leaves `current[..n]` unchanged; the slice stays in `current` only while it fits, and nothing past it in `current` is written |
| `BackendUtil.RemoveInPlace` | backend/backendutil/flags.go:42-54 | the REMOVE branch filters `current` into its own storage and yields `Merge(cur, RemoveFlags, flags)`; the write position never passes the read position, so `current[m..]` is untouched |
| `BackendUtil.Contains` | backend/backendutil/flags.go:29-36 | the linear scan reports true exactly when the flag occurs in the list |
| `BackendUtil.Append` | backend/backendutil/flags.go:19 | Go's `append` of one element: the slice grows by that element, in place while capacity lasts, else in fresh storage, leaving the old array's contents untouched |
| `BackendUtil.AppendAll` | backend/backendutil/flags.go:24 | Go's `append` of a whole list: all of it written in place when the result fits, else everything copied into fresh storage with nothing written into the old array |
| `BackendUtil.UpdateFlagList` | backend/memory/mailbox.go:220 | updating a message's flag list through the in-place algorithm gives exactly `Merge(current, op, flags)`; the operand, a value, is unchanged |
| `BackendUtil.SetKeepsRecent` | backend/backendutil/flags.go:15-24 | SET ends with exactly the operand list, preceded by a single `\Recent` exactly when `current` held it |
| `BackendUtil.AddAppendsMissing` | backend/backendutil/flags.go:25-41 | ADD keeps `current` as a prefix, followed by the operand flags not in `current`, in operand order |
| `BackendUtil.AddContainsOperands` | backend/backendutil/flags.go:29-40 | a flag is in the ADD result iff it is in `current` or in the operand |
| `BackendUtil.AddIdempotent` | backend/backendutil/flags.go:28-40 | adding the same operand to the ADD result again changes nothing |
| `BackendUtil.AddUnion` | backend/backendutil/flags.go:29-40 | with duplicate-free inputs the ADD result is duplicate-free and holds exactly the union |
| `BackendUtil.RemoveDropsOperands` | backend/backendutil/flags.go:42-54 | REMOVE keeps a flag iff it is in `current` and not in the operand, and every kept flag keeps its multiplicity |
| `BackendUtil.RemoveIdempotent` | backend/backendutil/flags.go:42-54 | removing the same operand twice equals removing it once |
| `BackendUtil.AddThenRemove` | backend/backendutil/flags.go:25-54 | removing the flags just added gives what removing them alone gives |
| `BackendUtil.WithoutCount` | backend/backendutil/flags.go:44-53 | the filter drops every occurrence of an operand flag and keeps every other flag as often as it occurred |
| `BackendUtil.WithoutMembers` | backend/backendutil/flags.go:44-53 | a flag survives the filter iff it was present and is not in the operand |
| `BackendUtil.WithoutConcat` | backend/backendutil/flags.go:44-53 | the filter distributes over concatenation |
| `BackendUtil.WithoutNoDuplicates` | backend/backendutil/flags.go:44-53 | filtering a duplicate-free list gives a duplicate-free list |
| `Messages.MaxUid` | backend/memory/mailbox.go:56-61 | the result bounds every UID in the list and is one of them, or 0 for an empty list |
| `Messages.NextUid` | backend/memory/mailbox.go:55-64 | 1 for an empty mailbox; larger than every UID present unless the largest is 2^32-1, where it wraps to 0 |
| `Messages.MaxUidOfSameUids` | backend/memory/mailbox.go:55-64 | the next UID depends on the UIDs only |
| `Messages.FirstUnseen` | backend/memory/mailbox.go:67-82 | the index of the first message without `\Seen`, all before it seen; -1 exactly when every message is seen |
| `Messages.ExpungedConcat` | backend/memory/mailbox.go:285-299 | the expunge filter distributes over concatenation |
| `Messages.ExpungedCount` | backend/memory/mailbox.go:285-299 | expunge drops every `\Deleted` message and keeps each other message as often as it occurred |
| `Messages.ExpungedHasNoDeleted` | backend/memory/mailbox.go:285-299 | every message left by expunge was present before and lacks `\Deleted` |
| `Messages.UidReusedAfterExpunge` | backend/memory/mailbox.go:55-64 | a two-message mailbox whose highest-UID message is expunged hands out that UID again |
| `Messages.UpdatedUpTo` | backend/memory/mailbox.go:209-221 | a partial flag update keeps the length and every message's UID and body |
| `Messages.UpdatedKeepsMessages` | backend/memory/mailbox.go:209-221 | a flag update keeps count, order, UIDs and the next UID, applies the merge exactly to the messages whose UID or sequence number is in the set, and leaves the others unchanged |
| `Messages.Picked` | backend/memory/mailbox.go:235-245 | the selected messages in mailbox order, never more than the mailbox holds |
| `Messages.PickedMembers` | backend/memory/mailbox.go:235-245 | a message is picked iff it sits at a position whose UID or sequence number is in the set |
| `Messages.CopyInto` | backend/memory/mailbox.go:246-248 | the destination grows by one copy per picked message and keeps its old messages as a prefix |
| `Messages.CopyIntoCopies` | backend/memory/mailbox.go:246-248 | the k-th appended message equals the k-th picked message in everything but its UID |
| `Messages.CopyIntoUids` | backend/memory/mailbox.go:246-248 | without wrap-around the copies take consecutive UIDs after the destination's largest, each greater than every UID before it |
| `Messages.CopyIntoMaxUid` | backend/memory/mailbox.go:246-248 | without wrap-around copying raises the destination's largest UID by exactly the number of copies |
| `Messages.CopyIntoUidAt` | backend/memory/mailbox.go:246-248 | without wrap-around the copy at index `i` has the UID that lies `i - len(dest) + 1` above the destination's largest |
| `Messages.CopyIntoCopyAt` | backend/memory/mailbox.go:246 | the `k`-th appended message equals the `k`-th picked one in date, size, flags and body |
| `Messages.MarkedThenExpunged` | backend/memory/mailbox.go:263-281 | marking the selected messages `\Deleted` and expunging leaves exactly the unselected messages that lacked `\Deleted`, in order |
| `Messages.MoveLeavesSurvivors` | backend/memory/mailbox.go:263-281 | the same with further messages appended: the survivors come first, then what expunge keeps of the rest |
| `Messages.MoveWithinKeepsSurvivors` | backend/memory/mailbox.go:263-281 | a move into the same mailbox keeps the survivors, in order, as a prefix |
| `Messages.MoveStepWithin` | backend/memory/mailbox.go:274-278 | one turn of a move within one mailbox, an append and then a mark in place, keeps the list equal to the copies so far appended to the partly marked list |
| `Memory.Mailbox.constructor` | backend/memory/mailbox.go:27-37 | a new mailbox has UID validity 1, no messages, is not subscribed, and has attributes `[specialUse]` exactly when `specialUse` is not empty |
| `Memory.Mailbox.Renamed` | backend/memory/user.go:128-132 | the mailbox a rename creates holds the given messages and zero values elsewhere: no attributes, not subscribed, UID validity 0 |
| `Memory.Mailbox.UidNext` | backend/memory/mailbox.go:55-64 | the accumulator loop returns `NextUid(messages)` |
| `Memory.Mailbox.UnseenSeqNum` | backend/memory/mailbox.go:66-83 | the 1-based position of the first message without `\Seen`, or 0 when every message is seen |
| `Memory.Mailbox.Status` | backend/memory/mailbox.go:85-114 | message count, next UID and UID validity exactly when asked for; recent and unseen 0; the fixed flag lists; the first unseen sequence number; the mailbox is not changed |
| `Memory.Mailbox.SetSubscribed` | backend/memory/mailbox.go:116-123 | the subscription flag takes the given value and nothing else changes |
| `Memory.Mailbox.CreateMessage` | backend/memory/mailbox.go:182-203 | exactly one message is appended with the prior next UID, the given date or `now` for the zero date, and the body length as size; earlier messages are untouched |
| `Memory.Mailbox.UpdateMessagesFlags` | backend/memory/mailbox.go:205-224 | the message list becomes `Updated(old messages, ...)`, whose properties `UpdatedKeepsMessages` gives |
| `Memory.Mailbox.CopyMessages` | backend/memory/mailbox.go:226-252 | an unknown destination is `NoSuchMailbox` with nothing changed; otherwise the destination becomes `CopyInto` of its old list and the picked messages, even when it is this mailbox, and a different source is unchanged |
| `Memory.Mailbox.MoveMessages` | backend/memory/mailbox.go:254-282 | unknown destination: error, nothing changed. Otherwise: the destination gains the copies as with COPY; no source message keeps `\Deleted`; the survivors remain as a prefix, in order; for another destination the source becomes exactly the survivors |
| `Memory.Mailbox.MarkAndCopy` | backend/memory/mailbox.go:263-279 | MOVE's loop over the snapshot: the source becomes the marked list and the destination `CopyInto` its old list, or both at once when they are the same mailbox |
| `Memory.Mailbox.MoveOne` | backend/memory/mailbox.go:264-278 | one turn of MOVE's loop: an addressed message is appended to the destination with its next UID and then marked `\Deleted` in the source |
| `Memory.Mailbox.Expunge` | backend/memory/mailbox.go:284-309 | the downward splicing loop leaves exactly `Expunged(old messages)` |
| `Memory.User.constructor` | backend/memory/user.go:22-57 | exactly the mailboxes INBOX, Sent, Drafts, Queue and Trash, each new, named by its key and owned by the user; INBOX has UID validity 1, no attributes, is not subscribed and holds one message with UID 1, no flags, the body's length as size; the others are empty with UID validity 1 and their special-use attributes |
| `Memory.User.CreateSpecialUseMailbox` | backend/memory/user.go:88-95 | a taken name gives `MailboxAlreadyExists` with the table unchanged; otherwise exactly that name is added, bound to a new pristine mailbox |
| `Memory.User.CreateMailbox` | backend/memory/user.go:97-102 | as `CreateSpecialUseMailbox` with no special use |
| `Memory.User.ListMailboxes` | backend/memory/user.go:63-75 | each listed mailbox is in the table, and subscribed when only subscribed ones are asked for; every such mailbox is listed, once |
| `Memory.User.GetMailbox` | backend/memory/user.go:77-86 | fails with `NoSuchMailbox` exactly when the name is absent, else returns the bound mailbox |
| `Memory.User.DeleteMailbox` | backend/memory/user.go:104-117 | INBOX is refused, an absent name is `NoSuchMailbox`, both with the table unchanged; otherwise only that name is removed |
| `Memory.User.RenameMailbox` | backend/memory/user.go:119-141 | an absent name fails with the table unchanged. Otherwise: `newName` is bound to a new mailbox with the old messages; the old mailbox is emptied; `existingName` is unbound unless it is INBOX; every other binding is kept; after renaming INBOX elsewhere, INBOX remains and is empty |
| `Memory.Backend.constructor` | backend/memory/backend.go:50-55 | the registry is empty |
| `Memory.Backend.AddUser` | backend/memory/backend.go:36-40 | a new user with the given credentials is registered under the name, its mailboxes exactly as the User constructor seeds them (welcome message in INBOX, the others empty with their attributes); no other entry changes |
| `Memory.Backend.Login` | backend/memory/backend.go:20-34 | a known user with the matching password is returned with the registry unchanged; with another password it is refused with the registry unchanged; an unknown name is registered, seeded, with the given password and the call still fails |
| `Memory.FirstLoginRegisters` | backend/memory/backend.go:20-40 | first use wins: the first login fails, a second with the same password returns exactly the user now registered under the name, and one with another password fails |

## Left out

- Locking: every `sync.RWMutex` lock and unlock. The operations are modelled as sequential calls.
- Channels:
  - `ListMessages` streams over a channel, and its fetch part (`msg.Fetch`) is not part of this model;
  - the `Updates`/`PushUpdate` update channel is not modelled.
- `SearchMessages` depends on `msg.Match`, which is not part of this model.
- `SeqSet.Contains` is a foreign call. A sequence set is modelled as a set of `uint32`, so the model asks only for membership.
- Time:
  - `time.Now()` becomes a parameter `now`: `CreateMessage` uses it for a zero date, and the User constructor uses it for the welcome message.
  - Dates are opaque integers.
- The welcome message body that `NewUser` formats from the name and the clock is a parameter `seedBody`.
- The `ioutil.ReadAll` error path of `CreateMessage` is left out; the body is a given byte sequence.
- Shared storage between messages:
  - Messages are values, so a copy never shares its flag or body storage with the original.
  - In Go, COPY and MOVE copy a message shallowly, so the copy and the source message share one flag array.
  - `UpdateFlags` rewrites that array in place. So a later FLAGS or -FLAGS on either message (and a +FLAGS, when the array has spare room) can change the flags the other message shows. For example, `-FLAGS \Seen` on a copy can rewrite the source's visible flag list.
  - The model does not capture this: an update to one message never changes another.
  - Within one call of `UpdateFlags`, the reuse of `current`'s storage is modelled.
  - The operand list is never modified, because it is a value.
- Go's `append` growth factor is not followed. `Append` and `AppendAll` choose their own new capacity, while Go uses its own policy. Only "in place when the result fits, else fresh storage" is modelled.
- `imap.NewMailboxStatus` is not part of this model. Its result is a record with the name, the requested items and zero counters; the items map inside go-imap's status is not modelled.
- The specialuse constants are the strings `\Sent`, `\Drafts` and `\Trash` of RFC 6154.
- Errors:
  - Go's `backend.ErrNoSuchMailbox` and the `"No such mailbox"` error of `GetMailbox`, `DeleteMailbox` and `RenameMailbox` are one error kind, `NoSuchMailbox`.
  - The other errors each have their own kind.
- The `User.backend` back-reference is left out, because no modelled operation reads it.
- Trivial accessors and no-ops: `Name`, `Info`, `Check`, `Logout` and `Username`.
- The server session behaviour exercised by server/cmd_noauth_test.go is not part of this model.
- Memory.User.constructor builds its table directly rather than through five `createMailbox` calls. Each of those calls inserts a new pristine mailbox under a name the table does not yet hold, so the result is the same. The constructor's contract states that result.
- Messages.CopyIntoUids holds only without wrap-around: it requires the destination's largest UID plus the number of copies to be at most 2^32-1. Past that, `NextUid` wraps to 0, as `NextUid`'s contract states. The same bound applies to `CopyIntoMaxUid` and `CopyIntoUidAt`.
