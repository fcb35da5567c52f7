/** The in-memory store: a registry of users, each owning a table of named
    mailboxes, each mailbox an ordered list of messages. Mailboxes and users
    are objects updated in place; a mailbox knows its owner so that COPY and
    MOVE can find their destination by name. */
module Memory {
  import opened Imap
  import opened BackendUtil
  import opened Messages

  /** The name every user's first mailbox has, and the one that cannot be
      deleted (section 6.3.4 of RFC 3501). */
  const Inbox := "INBOX"

  /** Special-use attributes of RFC 6154 given to the seeded mailboxes. */
  const SpecialUseSent := "\\Sent"
  const SpecialUseDrafts := "\\Drafts"
  const SpecialUseTrash := "\\Trash"

  /** The mailboxes every new user starts with. */
  const SeededNames: set<string> := {Inbox, "Sent", "Drafts", "Queue", "Trash"}

  /** The flags a STATUS reports as defined and as settable. */
  const StatusFlags: seq<Flag> := [Answered, Flagged, Deleted, Seen, Draft, "nonjunk"]
  const StatusPermanentFlags: seq<Flag> := StatusFlags + ["\\*"]

  class Mailbox {
    var attributes: seq<string>
    var subscribed: bool
    var messages: seq<Message>
    var uidValidity: Uint32
    const name: string
    const user: User

    /** The state of a mailbox just created with special-use attribute
        `specialUse` ("" for none). */
    ghost predicate Pristine(specialUse: string)
      reads this
    {
      && messages == []
      && uidValidity == 1
      && !subscribed
      && attributes == (if specialUse == "" then [] else [specialUse])
    }

    /** A new empty mailbox of `user` named `name`. */
    constructor (user: User, name: string, specialUse: string)
      ensures this.user == user && this.name == name
      ensures Pristine(specialUse)
    {
      this.user := user;
      this.name := name;
      uidValidity := 1;
      messages := [];
      subscribed := false;
      attributes := if specialUse != "" then [specialUse] else [];
    }

    /** The mailbox a rename puts in place: it takes over `messages` and
        leaves every other field at its zero value, UID validity included. */
    constructor Renamed(user: User, name: string, messages: seq<Message>)
      ensures this.user == user && this.name == name && this.messages == messages
      ensures attributes == [] && !subscribed && uidValidity == 0
    {
      this.user := user;
      this.name := name;
      this.messages := messages;
      attributes := [];
      subscribed := false;
      uidValidity := 0;
    }

    /** The UID the next appended message gets: one more than the largest
        UID present, 1 in an empty mailbox, wrapping like a uint32. */
    method UidNext() returns (uid: Uint32)
      ensures uid == NextUid(messages)
    {
      var max: Uint32 := 0;
      for i := 0 to |messages|
        invariant max == MaxUid(messages[..i])
      {
        assert messages[..i + 1][..i] == messages[..i];
        if messages[i].uid > max {
          max := messages[i].uid;
        }
      }
      assert messages[..|messages|] == messages;
      uid := ToUint32(max + 1);
    }

    /** The sequence number of the first message without `\Seen`, or 0 when
        every message is seen. */
    method UnseenSeqNum() returns (n: Uint32)
      ensures n == UnseenSeqNumOf(messages)
    {
      for i := 0 to |messages|
        invariant forall k :: 0 <= k < i ==> HasFlag(messages[k], Seen)
      {
        var seen := Contains(messages[i].flags, Seen);
        if !seen {
          assert FirstUnseen(messages) == i;
          return ToUint32(i + 1);
        }
      }
      return 0;
    }

    /** The STATUS reply for `items`: the message count, next UID and UID
        validity when asked for, recent and unseen counts always 0. */
    method Status(items: seq<StatusItem>) returns (status: MailboxStatus)
      ensures status.name == name && status.items == items
      ensures status.flags == StatusFlags && status.permanentFlags == StatusPermanentFlags
      ensures status.unseenSeqNum == UnseenSeqNumOf(messages)
      ensures status.messages == if StatusMessages in items then ToUint32(|messages|) else 0
      ensures status.uidNext == if StatusUidNext in items then NextUid(messages) else 0
      ensures status.uidValidity == if StatusUidValidity in items then uidValidity else 0
      ensures status.recent == 0 && status.unseen == 0
    {
      status := NewMailboxStatus(name, items);
      status := status.(flags := StatusFlags, permanentFlags := StatusPermanentFlags);
      var unseen := UnseenSeqNum();
      status := status.(unseenSeqNum := unseen);
      for i := 0 to |items|
        invariant status.name == name && status.items == items
        invariant status.flags == StatusFlags && status.permanentFlags == StatusPermanentFlags
        invariant status.unseenSeqNum == unseen
        invariant status.messages == if StatusMessages in items[..i] then ToUint32(|messages|) else 0
        invariant status.uidNext == if StatusUidNext in items[..i] then NextUid(messages) else 0
        invariant status.uidValidity == if StatusUidValidity in items[..i] then uidValidity else 0
        invariant status.recent == 0 && status.unseen == 0
      {
        assert items[..i + 1] == items[..i] + [items[i]];
        var item := items[i];
        if item == StatusMessages {
          status := status.(messages := ToUint32(|messages|));
        } else if item == StatusUidNext {
          var next := UidNext();
          status := status.(uidNext := next);
        } else if item == StatusUidValidity {
          status := status.(uidValidity := uidValidity);
        } else if item == StatusRecent {
          status := status.(recent := 0);
        } else if item == StatusUnseen {
          status := status.(unseen := 0);
        }
      }
      assert items[..|items|] == items;
    }

    method SetSubscribed(subscribed: bool)
      modifies this`subscribed
      ensures this.subscribed == subscribed
    {
      this.subscribed := subscribed;
    }

    /** APPEND: a new message at the end, with the next UID, the given date
        or `now` when the date is Go's zero time, and the body's length as
        its size. */
    method CreateMessage(flags: seq<Flag>, date: Time, body: seq<Byte>, now: Time)
      modifies this`messages
      ensures messages == old(messages) + [Message(NextUid(old(messages)),
                                                   if date == ZeroTime then now else date,
                                                   ToUint32(|body|), flags, body)]
    {
      var date := date;
      if date == ZeroTime {
        date := now;
      }
      var uid := UidNext();
      messages := messages + [Message(uid, date, ToUint32(|body|), flags, body)];
    }

    /** STORE: the flag operation applied to every message addressed by
        `seqset`, by UID when `uid` and by sequence number otherwise. */
    method UpdateMessagesFlags(uid: bool, seqset: SeqSet, op: FlagsOp, flags: seq<Flag>)
      modifies this`messages
      ensures messages == Updated(old(messages), uid, seqset, op, flags)
    {
      for i := 0 to |messages|
        invariant messages == UpdatedUpTo(old(messages), i, uid, seqset, op, flags)
      {
        var id := if uid then messages[i].uid else ToUint32(i + 1);
        if id in seqset {
          var updated := UpdateFlagList(messages[i].flags, op, flags);
          messages := messages[i := messages[i].(flags := updated)];
        }
      }
    }

    /** COPY: each addressed message, in order, appended to the destination
        with the destination's next UID; an unknown destination is an error
        and changes nothing. The destination may be this mailbox itself, in
        which case only the messages present at the start are visited. */
    method CopyMessages(uid: bool, seqset: SeqSet, destName: string) returns (res: Result<()>)
      modifies user.Named(destName)`messages
      ensures destName !in user.mailboxes ==> res == Err(NoSuchMailbox) && messages == old(messages)
      ensures destName in user.mailboxes ==>
        var dest := user.mailboxes[destName];
        && res == Ok(())
        && dest.messages == CopyInto(old(dest.messages), Picked(old(messages), uid, seqset))
        && (dest != this ==> messages == old(messages))
    {
      if destName !in user.mailboxes {
        return Err(NoSuchMailbox);
      }
      var dest := user.mailboxes[destName];
      var src := messages;
      for i := 0 to |src|
        invariant dest.messages == CopyInto(old(dest.messages), Picked(src[..i], uid, seqset))
        invariant dest != this ==> messages == src
      {
        var id := if uid then src[i].uid else ToUint32(i + 1);
        ghost var picked := Picked(src[..i], uid, seqset);
        PickedStep(src, i, uid, seqset);
        if id in seqset {
          assert Picked(src[..i + 1], uid, seqset) == picked + [src[i]];
          CopyIntoStep(old(dest.messages), picked, src[i]);
          var next := dest.UidNext();
          dest.messages := dest.messages + [src[i].(uid := next)];
        } else {
          assert Picked(src[..i + 1], uid, seqset) == picked;
        }
      }
      assert src[..|src|] == src;
      res := Ok(());
    }

    /** MOVE: each addressed message is copied as by COPY and marked
        `\Deleted` here, then the whole mailbox is expunged, which also drops
        messages that carried `\Deleted` before. */
    method MoveMessages(uid: bool, seqset: SeqSet, destName: string) returns (res: Result<()>)
      modifies this`messages, user.Named(destName)`messages
      ensures destName !in user.mailboxes ==> res == Err(NoSuchMailbox) && messages == old(messages)
      ensures destName in user.mailboxes ==>
        var dest := user.mailboxes[destName];
        var marked := Updated(old(messages), uid, seqset, AddFlags, [Deleted]);
        var picked := Picked(old(messages), uid, seqset);
        && res == Ok(())
        && (dest != this ==> dest.messages == CopyInto(old(dest.messages), picked))
        && (dest != this ==> messages == Expunged(marked))
        && (dest == this ==> messages == Expunged(CopyInto(marked, picked)))
      ensures destName in user.mailboxes ==>
        && (forall k :: 0 <= k < |messages| ==> !HasFlag(messages[k], Deleted))
        && Survivors(old(messages), uid, seqset) <= messages
        && (user.mailboxes[destName] != this ==> messages == Survivors(old(messages), uid, seqset))
    {
      if destName !in user.mailboxes {
        return Err(NoSuchMailbox);
      }
      var dest := user.mailboxes[destName];
      ghost var src := messages;
      MarkAndCopy(dest, uid, seqset);
      ghost var before := messages;
      Expunge();
      ExpungedHasNoDeleted(before);
      if dest == this {
        MoveWithinKeepsSurvivors(src, uid, seqset);
      } else {
        MarkedThenExpunged(src, uid, seqset);
      }
      res := Ok(());
    }

    /** MOVE's loop: every addressed message of this mailbox, in order,
        appended to `dest` and marked `\Deleted` here, visiting only the
        messages present at the start. */
    method MarkAndCopy(dest: Mailbox, uid: bool, seqset: SeqSet)
      modifies this`messages, dest`messages
      ensures dest != this ==> messages == Updated(old(messages), uid, seqset, AddFlags, [Deleted])
      ensures dest != this ==> dest.messages == CopyInto(old(dest.messages), Picked(old(messages), uid, seqset))
      ensures dest == this ==>
        messages == CopyInto(Updated(old(messages), uid, seqset, AddFlags, [Deleted]), Picked(old(messages), uid, seqset))
    {
      var src := messages;
      for i := 0 to |src|
        invariant dest != this ==> messages == UpdatedUpTo(src, i, uid, seqset, AddFlags, [Deleted])
        invariant dest != this ==> dest.messages == CopyInto(old(dest.messages), Picked(src[..i], uid, seqset))
        invariant dest == this ==>
          messages == CopyInto(UpdatedUpTo(src, i, uid, seqset, AddFlags, [Deleted]), Picked(src[..i], uid, seqset))
      {
        ghost var picked := Picked(src[..i], uid, seqset);
        ghost var destBefore := dest.messages;
        PickedStep(src, i, uid, seqset);
        MoveOne(dest, src, i, uid, seqset);
        if dest != this {
          if Selected(src[i], i, uid, seqset) {
            CopyIntoStep(old(dest.messages), picked, src[i]);
            assert Picked(src[..i + 1], uid, seqset) == picked + [src[i]];
            assert dest.messages == CopyInto(old(dest.messages), picked + [src[i]]);
          } else {
            assert Picked(src[..i + 1], uid, seqset) == picked;
            assert dest.messages == destBefore;
          }
        }
      }
      assert src[..|src|] == src;
    }

    /** One turn of MOVE's loop over the snapshot `src`: message `i`, when
        addressed, is appended to `dest` with `dest`'s next UID and then
        marked `\Deleted` here. */
    method MoveOne(dest: Mailbox, src: seq<Message>, i: nat, uid: bool, seqset: SeqSet)
      requires i < |src|
      requires dest != this ==> messages == UpdatedUpTo(src, i, uid, seqset, AddFlags, [Deleted])
      requires dest == this ==>
        messages == CopyInto(UpdatedUpTo(src, i, uid, seqset, AddFlags, [Deleted]), Picked(src[..i], uid, seqset))
      modifies this`messages, dest`messages
      ensures dest != this ==> messages == UpdatedUpTo(src, i + 1, uid, seqset, AddFlags, [Deleted])
      ensures dest != this ==>
        dest.messages == old(dest.messages)
          + if Selected(src[i], i, uid, seqset) then [src[i].(uid := NextUid(old(dest.messages)))] else []
      ensures dest == this ==>
        messages == CopyInto(UpdatedUpTo(src, i + 1, uid, seqset, AddFlags, [Deleted]), Picked(src[..i + 1], uid, seqset))
    {
      var id := if uid then src[i].uid else ToUint32(i + 1);
      PickedStep(src, i, uid, seqset);
      UpdatedUpToStep(src, i, uid, seqset, AddFlags, [Deleted]);
      if id in seqset {
        var next := dest.UidNext();
        dest.messages := dest.messages + [src[i].(uid := next)];
        ghost var appended := messages;
        var flags := UpdateFlagList(messages[i].flags, AddFlags, [Deleted]);
        messages := messages[i := messages[i].(flags := flags)];
        if dest == this {
          MoveStepWithin(src, i, uid, seqset);
          assert messages == appended[i := appended[i].(flags := Merge(appended[i].flags, AddFlags, [Deleted]))];
        }
      } else {
        assert !Selected(src[i], i, uid, seqset);
        assert Picked(src[..i + 1], uid, seqset) == Picked(src[..i], uid, seqset);
        assert UpdatedUpTo(src, i + 1, uid, seqset, AddFlags, [Deleted])
            == UpdatedUpTo(src, i, uid, seqset, AddFlags, [Deleted]);
      }
    }

    /** EXPUNGE: every message carrying `\Deleted` removed, the rest kept in
        order; the list is walked from the highest index down so that removal
        does not shift what is still to be visited. */
    method Expunge()
      modifies this`messages
      ensures messages == Expunged(old(messages))
    {
      var i := |messages| - 1;
      while i >= 0
        invariant -1 <= i < |old(messages)|
        invariant messages == old(messages)[..i + 1] + Expunged(old(messages)[i + 1..])
        decreases i
      {
        ghost var o := old(messages);
        assert messages[i] == o[i];
        assert o[i..] == [o[i]] + o[i + 1..];
        ExpungedConcat([o[i]], o[i + 1..]);
        assert Expunged([o[i]]) == if HasFlag(o[i], Deleted) then [] else [o[i]] by {
          assert [o[i]][..0] == [];
        }
        var deleted := Contains(messages[i].flags, Deleted);
        if deleted {
          messages := messages[..i] + messages[i + 1..];
        } else {
          assert o[..i + 1] == o[..i] + [o[i]];
        }
        i := i - 1;
      }
      assert old(messages)[0..] == old(messages);
    }
  }

  class User {
    const username: string
    const password: string
    var mailboxes: map<string, Mailbox>

    /** INBOX exists, and every mailbox in the table belongs to this user and
        carries its own key as name, so that no mailbox is listed under two
        names. */
    ghost predicate Valid()
      reads this
    {
      && Inbox in mailboxes
      && forall n :: n in mailboxes ==> mailboxes[n].name == n && mailboxes[n].user == this
    }

    /** The mailbox called `name`, as a set with at most one element, for
        framing a method that may change it. */
    function Named(name: string): set<Mailbox>
      reads this
    {
      if name in mailboxes then {mailboxes[name]} else {}
    }

    /** The table a new user starts with: exactly the seeded names; INBOX as
        just created but holding one welcome message with UID 1, no flags,
        body `seedBody` and date `now`; the others empty, each with its
        special-use attribute. */
    ghost predicate Seeded(seedBody: seq<Byte>, now: Time)
      reads this, mailboxes.Values
    {
      && mailboxes.Keys == SeededNames
      && mailboxes[Inbox].messages == [Message(1, now, ToUint32(|seedBody|), [], seedBody)]
      && mailboxes[Inbox].attributes == []
      && mailboxes[Inbox].uidValidity == 1
      && !mailboxes[Inbox].subscribed
      && mailboxes["Sent"].Pristine(SpecialUseSent)
      && mailboxes["Drafts"].Pristine(SpecialUseDrafts)
      && mailboxes["Queue"].Pristine("")
      && mailboxes["Trash"].Pristine(SpecialUseTrash)
    }

    /** A new user with the seeded mailboxes; the welcome message's body
        `seedBody` and date `now` are supplied by the caller. */
    constructor (username: string, password: string, seedBody: seq<Byte>, now: Time)
      ensures this.username == username && this.password == password
      ensures Valid() && Seeded(seedBody, now)
      ensures forall n :: n in mailboxes ==> fresh(mailboxes[n])
    {
      this.username := username;
      this.password := password;
      mailboxes := map[];
      new;
      var inbox := new Mailbox(this, Inbox, "");
      inbox.messages := [Message(1, now, ToUint32(|seedBody|), [], seedBody)];
      var sent := new Mailbox(this, "Sent", SpecialUseSent);
      var drafts := new Mailbox(this, "Drafts", SpecialUseDrafts);
      var queue := new Mailbox(this, "Queue", "");
      var trash := new Mailbox(this, "Trash", SpecialUseTrash);
      mailboxes := map[Inbox := inbox, "Sent" := sent, "Drafts" := drafts, "Queue" := queue, "Trash" := trash];
    }

    /** CREATE with a special-use attribute: refused when the name is taken,
        otherwise exactly one new empty mailbox under that name. */
    method CreateSpecialUseMailbox(name: string, specialUse: string) returns (res: Result<()>)
      requires Valid()
      modifies this`mailboxes
      ensures Valid()
      ensures name in old(mailboxes) ==> res == Err(MailboxAlreadyExists) && mailboxes == old(mailboxes)
      ensures name !in old(mailboxes) ==>
        && res == Ok(())
        && name in mailboxes && fresh(mailboxes[name])
        && mailboxes == old(mailboxes)[name := mailboxes[name]]
        && mailboxes[name].Pristine(specialUse)
    {
      if name in mailboxes {
        return Err(MailboxAlreadyExists);
      }
      var mbox := new Mailbox(this, name, specialUse);
      mailboxes := mailboxes[name := mbox];
      res := Ok(());
    }

    /** CREATE (section 6.3.3 of RFC 3501) of a mailbox without attributes. */
    method CreateMailbox(name: string) returns (res: Result<()>)
      requires Valid()
      modifies this`mailboxes
      ensures Valid()
      ensures name in old(mailboxes) ==> res == Err(MailboxAlreadyExists) && mailboxes == old(mailboxes)
      ensures name !in old(mailboxes) ==>
        && res == Ok(())
        && name in mailboxes && fresh(mailboxes[name])
        && mailboxes == old(mailboxes)[name := mailboxes[name]]
        && mailboxes[name].Pristine("")
    {
      res := CreateSpecialUseMailbox(name, "");
    }

    /** LIST / LSUB: every mailbox, or only the subscribed ones, each once, in
        an unspecified order. */
    method ListMailboxes(subscribed: bool) returns (list: seq<Mailbox>)
      requires Valid()
      ensures forall m :: m in list <==> m in mailboxes.Values && (subscribed ==> m.subscribed)
      ensures forall i, j :: 0 <= i < j < |list| ==> list[i] != list[j]
    {
      list := [];
      var rest := mailboxes.Keys;
      while rest != {}
        invariant rest <= mailboxes.Keys
        invariant forall m :: m in list ==>
          exists n :: n in mailboxes && n !in rest && mailboxes[n] == m && (subscribed ==> m.subscribed)
        invariant forall n :: n in mailboxes && n !in rest && (subscribed ==> mailboxes[n].subscribed) ==>
          mailboxes[n] in list
        invariant forall m :: m in list ==> m.name !in rest
        invariant forall i, j :: 0 <= i < j < |list| ==> list[i] != list[j]
        decreases rest
      {
        var name :| name in rest;
        var mailbox := mailboxes[name];
        if !(subscribed && !mailbox.subscribed) {
          list := list + [mailbox];
        }
        rest := rest - {name};
      }
    }

    /** The mailbox called `name`, or an error when there is none. */
    method GetMailbox(name: string) returns (res: Result<Mailbox>)
      ensures res.Ok? <==> name in mailboxes
      ensures res.Ok? ==> res.value == mailboxes[name]
      ensures res.Err? ==> res.error == NoSuchMailbox
    {
      if name !in mailboxes {
        return Err(NoSuchMailbox);
      }
      res := Ok(mailboxes[name]);
    }

    /** DELETE: refused for INBOX and for an unknown name; otherwise only that
        name leaves the table. */
    method DeleteMailbox(name: string) returns (res: Result<()>)
      requires Valid()
      modifies this`mailboxes
      ensures Valid()
      ensures name == Inbox ==> res == Err(CannotDeleteInbox) && mailboxes == old(mailboxes)
      ensures name != Inbox && name !in old(mailboxes) ==>
        res == Err(NoSuchMailbox) && mailboxes == old(mailboxes)
      ensures name != Inbox && name in old(mailboxes) ==>
        res == Ok(()) && mailboxes == old(mailboxes) - {name}
    {
      if name == Inbox {
        return Err(CannotDeleteInbox);
      }
      if name !in mailboxes {
        return Err(NoSuchMailbox);
      }
      mailboxes := mailboxes - {name};
      res := Ok(());
    }

    /** RENAME: `newName` is bound to a new mailbox holding the old one's
        messages, whatever was bound to it before; the old mailbox is emptied
        and, unless it is INBOX, unbound. Renaming a mailbox other than INBOX
        to its own name therefore removes it. */
    method RenameMailbox(existingName: string, newName: string) returns (res: Result<()>)
      requires Valid()
      modifies this`mailboxes, Named(existingName)`messages
      ensures Valid()
      ensures existingName !in old(mailboxes) ==>
        res == Err(NoSuchMailbox) && mailboxes == old(mailboxes)
      ensures existingName in old(mailboxes) ==>
        var mbox := old(mailboxes)[existingName];
        && res == Ok(())
        && mbox.messages == []
        && mailboxes.Keys == (if existingName == Inbox then old(mailboxes).Keys + {newName}
                              else old(mailboxes).Keys + {newName} - {existingName})
        && (forall n :: n in mailboxes && n != newName ==> mailboxes[n] == old(mailboxes)[n])
        && (newName in mailboxes ==>
              && fresh(mailboxes[newName])
              && mailboxes[newName].messages == old(mbox.messages)
              && mailboxes[newName].attributes == []
              && !mailboxes[newName].subscribed
              && mailboxes[newName].uidValidity == 0)
      ensures existingName == Inbox && newName != Inbox ==> mailboxes[Inbox].messages == []
    {
      if existingName !in mailboxes {
        return Err(NoSuchMailbox);
      }
      var mbox := mailboxes[existingName];
      var renamed := new Mailbox.Renamed(this, newName, mbox.messages);
      mailboxes := mailboxes[newName := renamed];
      mbox.messages := [];
      if existingName != Inbox {
        mailboxes := mailboxes - {existingName};
      }
      res := Ok(());
    }
  }

  class Backend {
    var users: map<string, User>

    /** Every user is registered under its own name. */
    ghost predicate Valid()
      reads this
    {
      forall n :: n in users ==> users[n].username == n
    }

    /** A store with no users. */
    constructor ()
      ensures users == map[]
      ensures Valid()
    {
      users := map[];
    }

    /** Registers a new user under `username`, seeded as by the User
        constructor. */
    method AddUser(username: string, password: string, seedBody: seq<Byte>, now: Time) returns (user: User)
      requires Valid()
      modifies this`users
      ensures Valid()
      ensures fresh(user) && users == old(users)[username := user]
      ensures user.username == username && user.password == password
      ensures user.Valid() && user.Seeded(seedBody, now)
    {
      user := new User(username, password, seedBody, now);
      users := users[username := user];
    }

    /** LOGIN: a known user with the right password is returned; a known
        user with another password is refused. An unknown name is
        registered with the password given, but this first attempt is
        refused as well. */
    method Login(username: string, password: string, seedBody: seq<Byte>, now: Time) returns (res: Result<User>)
      requires Valid()
      modifies this`users
      ensures Valid()
      ensures username in old(users) ==>
        && users == old(users)
        && (old(users)[username].password == password ==> res == Ok(old(users)[username]))
        && (old(users)[username].password != password ==> res == Err(BadUsernameOrPassword))
      ensures username !in old(users) ==>
        && res == Err(BadUsernameOrPassword)
        && username in users && fresh(users[username])
        && users == old(users)[username := users[username]]
        && users[username].password == password
        && users[username].Valid()
        && users[username].Seeded(seedBody, now)
    {
      var ok := username in users;
      var user: User;
      if ok {
        user := users[username];
      } else {
        user := AddUser(username, password, seedBody, now);
      }
      if ok && user.password == password {
        return Ok(user);
      }
      return Err(BadUsernameOrPassword);
    }
  }

  /** First use wins: the first login under a new name fails but registers
      the password; logging in again with it succeeds, and with any other
      password fails. */
  method FirstLoginRegisters(be: Backend, username: string, password: string, other: string,
                             seedBody: seq<Byte>, now: Time)
    returns (first: Result<User>, again: Result<User>, wrong: Result<User>)
    requires be.Valid() && username !in be.users && other != password
    modifies be`users
    ensures first == Err(BadUsernameOrPassword)
    ensures again.Ok? && again.value.username == username && again.value.password == password
    ensures wrong == Err(BadUsernameOrPassword)
    ensures username in be.users && be.users[username].password == password
    ensures again == Ok(be.users[username])
  {
    first := be.Login(username, password, seedBody, now);
    again := be.Login(username, password, seedBody, now);
    wrong := be.Login(username, other, seedBody, now);
  }
}
