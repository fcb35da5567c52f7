/** Messages of the in-memory store and what the mailbox operations compute
    on a mailbox's ordered message list, whose 1-based positions are the
    sequence numbers of section 2.3.1.2 of RFC 3501. */
module Messages {
  import opened Imap
  import opened BackendUtil

  type Byte = x: int | 0 <= x < 256

  /** A point in time, in nanoseconds since Go's zero time, so that `ZeroTime`
      is the value Go's `IsZero` recognises. */
  type Time = int

  const ZeroTime: Time := 0

  datatype Message = Message(uid: Uint32, date: Time, size: Uint32, flags: seq<Flag>, body: seq<Byte>)

  predicate HasFlag(m: Message, f: Flag)
  {
    f in m.flags
  }

  // ---------------------------------------------------------------------------
  // UIDs (section 2.3.1.1 of RFC 3501)

  /** The largest UID in `msgs`, or 0 when there is none. */
  function MaxUid(msgs: seq<Message>): (r: Uint32)
    ensures forall k :: 0 <= k < |msgs| ==> msgs[k].uid <= r
    ensures msgs == [] ==> r == 0
    ensures msgs != [] ==> exists k :: 0 <= k < |msgs| && msgs[k].uid == r
  {
    if msgs == [] then 0
    else
      var m := MaxUid(msgs[..|msgs| - 1]);
      var last := msgs[|msgs| - 1];
      assert forall k :: 0 <= k < |msgs| - 1 ==> msgs[k] == msgs[..|msgs| - 1][k];
      if last.uid > m then last.uid else m
  }

  /** The UID the store gives the next message: one more than the largest,
      wrapping to 0 past 2^32 - 1. Fresh as long as it does not wrap. */
  function NextUid(msgs: seq<Message>): (r: Uint32)
    ensures msgs == [] ==> r == 1
    ensures MaxUid(msgs) < 0xFFFF_FFFF ==> forall k :: 0 <= k < |msgs| ==> msgs[k].uid < r
    ensures MaxUid(msgs) == 0xFFFF_FFFF ==> r == 0
  {
    ToUint32(MaxUid(msgs) + 1)
  }

  /** MaxUid looks at UIDs only. */
  lemma {:induction false} MaxUidOfSameUids(a: seq<Message>, b: seq<Message>)
    requires |a| == |b| && forall k :: 0 <= k < |a| ==> a[k].uid == b[k].uid
    ensures MaxUid(a) == MaxUid(b)
  {
    if a != [] {
      MaxUidOfSameUids(a[..|a| - 1], b[..|b| - 1]);
    }
  }

  // ---------------------------------------------------------------------------
  // First unseen message (section 6.3.10 / 7.1 UNSEEN of RFC 3501)

  /** The index of the first message without `\Seen`, or -1 if all have it. */
  function FirstUnseen(msgs: seq<Message>): (r: int)
    ensures -1 <= r < |msgs|
    ensures r == -1 <==> forall k :: 0 <= k < |msgs| ==> HasFlag(msgs[k], Seen)
    ensures r >= 0 ==> !HasFlag(msgs[r], Seen) && forall k :: 0 <= k < r ==> HasFlag(msgs[k], Seen)
  {
    if msgs == [] then -1
    else
      var init := msgs[..|msgs| - 1];
      var r := FirstUnseen(init);
      assert forall k :: 0 <= k < |init| ==> msgs[k] == init[k];
      if r >= 0 then r
      else if !HasFlag(msgs[|msgs| - 1], Seen) then |msgs| - 1
      else -1
  }

  /** The sequence number reported as first unseen: 0 when every message is
      seen. */
  function UnseenSeqNumOf(msgs: seq<Message>): Uint32
  {
    var k := FirstUnseen(msgs);
    if k < 0 then 0 else ToUint32(k + 1)
  }

  // ---------------------------------------------------------------------------
  // EXPUNGE (section 6.4.3 of RFC 3501)

  /** The messages without `\Deleted`, in order. */
  function Expunged(msgs: seq<Message>): seq<Message>
  {
    if msgs == [] then []
    else
      var last := msgs[|msgs| - 1];
      Expunged(msgs[..|msgs| - 1]) + (if HasFlag(last, Deleted) then [] else [last])
  }

  lemma {:induction false} ExpungedConcat(a: seq<Message>, b: seq<Message>)
    ensures Expunged(a + b) == Expunged(a) + Expunged(b)
  {
    if b == [] {
      assert a + b == a;
    } else {
      assert (a + b)[..|a + b| - 1] == a + b[..|b| - 1];
      ExpungedConcat(a, b[..|b| - 1]);
    }
  }

  /** Expunge keeps each message without `\Deleted` as often as it occurred
      and drops every message with it. */
  lemma {:induction false} ExpungedCount(msgs: seq<Message>, m: Message)
    ensures multiset(Expunged(msgs))[m] == if HasFlag(m, Deleted) then 0 else multiset(msgs)[m]
  {
    if msgs != [] {
      var init, last := msgs[..|msgs| - 1], msgs[|msgs| - 1];
      ExpungedCount(init, m);
      assert msgs == init + [last];
      assert multiset(msgs) == multiset(init) + multiset{last};
    }
  }

  /** No message left by expunge carries `\Deleted`. */
  lemma {:induction false} ExpungedHasNoDeleted(msgs: seq<Message>)
    ensures forall m :: m in Expunged(msgs) ==> m in msgs && !HasFlag(m, Deleted)
  {
    forall m | m in Expunged(msgs) ensures m in msgs && !HasFlag(m, Deleted) {
      ExpungedCount(msgs, m);
      assert multiset(Expunged(msgs))[m] > 0;
    }
  }

  /** The UID computed after an expunge can be one that an expunged message
      had: the rule "largest current UID + 1" reuses UIDs. */
  lemma UidReusedAfterExpunge()
    ensures var kept := Message(1, ZeroTime, 0, [], []);
            var gone := Message(2, ZeroTime, 0, [Deleted], []);
            && NextUid([kept, gone]) == 3
            && Expunged([kept, gone]) == [kept]
            && NextUid(Expunged([kept, gone])) == gone.uid
  {
    var kept := Message(1, ZeroTime, 0, [], []);
    var gone := Message(2, ZeroTime, 0, [Deleted], []);
    assert [kept, gone][..1] == [kept];
    assert [kept][..0] == [];
    assert Expunged([kept]) == [kept];
  }

  // ---------------------------------------------------------------------------
  // Message selection by UID or by sequence number

  /** Whether the message `m` at index `pos` is addressed by `seqset`: by its
      UID when `uid`, else by its sequence number `pos + 1` as a uint32. */
  predicate Selected(m: Message, pos: nat, uid: bool, seqset: SeqSet)
  {
    (if uid then m.uid else ToUint32(pos + 1)) in seqset
  }

  /** `msgs` after the flag update has visited indices below `k`. */
  function UpdatedUpTo(msgs: seq<Message>, k: nat, uid: bool, seqset: SeqSet, op: FlagsOp, flags: seq<Flag>)
    : (r: seq<Message>)
    ensures |r| == |msgs|
    ensures forall i :: 0 <= i < |msgs| ==> r[i].uid == msgs[i].uid && r[i].body == msgs[i].body
  {
    seq(|msgs|, i requires 0 <= i < |msgs| =>
      if i < k && Selected(msgs[i], i, uid, seqset)
      then msgs[i].(flags := Merge(msgs[i].flags, op, flags))
      else msgs[i])
  }

  /** `msgs` after the flag update of every selected message. */
  function Updated(msgs: seq<Message>, uid: bool, seqset: SeqSet, op: FlagsOp, flags: seq<Flag>)
    : seq<Message>
  {
    UpdatedUpTo(msgs, |msgs|, uid, seqset, op, flags)
  }

  /** A flag update keeps every message where it was and changes nothing but
      the flags of the selected ones; in particular the next UID is unchanged. */
  lemma {:induction false} UpdatedKeepsMessages(msgs: seq<Message>, uid: bool, seqset: SeqSet, op: FlagsOp, flags: seq<Flag>)
    ensures var r := Updated(msgs, uid, seqset, op, flags);
      && |r| == |msgs|
      && NextUid(r) == NextUid(msgs)
      && forall i :: 0 <= i < |msgs| ==>
           && r[i] == msgs[i].(flags := r[i].flags)
           && r[i].flags == if Selected(msgs[i], i, uid, seqset) then Merge(msgs[i].flags, op, flags) else msgs[i].flags
  {
    MaxUidOfSameUids(msgs, Updated(msgs, uid, seqset, op, flags));
  }

  /** The selected messages, in mailbox order. */
  function Picked(msgs: seq<Message>, uid: bool, seqset: SeqSet): (r: seq<Message>)
    ensures |r| <= |msgs|
  {
    if msgs == [] then []
    else
      var last := msgs[|msgs| - 1];
      Picked(msgs[..|msgs| - 1], uid, seqset)
        + (if Selected(last, |msgs| - 1, uid, seqset) then [last] else [])
  }

  /** A message is picked exactly when it is selected at some position. */
  lemma {:induction false} PickedMembers(msgs: seq<Message>, uid: bool, seqset: SeqSet)
    ensures forall m :: m in Picked(msgs, uid, seqset) <==>
              exists i :: 0 <= i < |msgs| && msgs[i] == m && Selected(m, i, uid, seqset)
  {
    if msgs != [] {
      var init := msgs[..|msgs| - 1];
      PickedMembers(init, uid, seqset);
      assert forall i :: 0 <= i < |init| ==> init[i] == msgs[i];
    }
  }

  // ---------------------------------------------------------------------------
  // COPY (section 6.4.7 of RFC 3501)

  /** `copy` is `m` with possibly another UID: what `msgCopy := *msg` followed
      by a UID assignment produces. */
  predicate SameButUid(copy: Message, m: Message)
  {
    copy.date == m.date && copy.size == m.size && copy.flags == m.flags && copy.body == m.body
  }

  /** The destination list after appending each picked message in turn, each
      copy taking the destination's next UID at the time it is appended. */
  function CopyInto(dest: seq<Message>, picked: seq<Message>): (r: seq<Message>)
    ensures |r| == |dest| + |picked| && r[..|dest|] == dest
  {
    if picked == [] then dest
    else
      var d := CopyInto(dest, picked[..|picked| - 1]);
      d + [picked[|picked| - 1].(uid := NextUid(d))]
  }

  /** The appended messages are the picked ones, in order, except for UIDs. */
  lemma {:induction false} CopyIntoCopies(dest: seq<Message>, picked: seq<Message>)
    ensures var r := CopyInto(dest, picked);
      forall k :: 0 <= k < |picked| ==> SameButUid(r[|dest| + k], picked[k])
  {
    forall k | 0 <= k < |picked| ensures SameButUid(CopyInto(dest, picked)[|dest| + k], picked[k]) {
      CopyIntoCopyAt(dest, picked, k);
    }
  }

  /** The `k`-th appended message is the `k`-th picked one but for its UID. */
  lemma {:induction false} CopyIntoCopyAt(dest: seq<Message>, picked: seq<Message>, k: nat)
    requires k < |picked|
    ensures SameButUid(CopyInto(dest, picked)[|dest| + k], picked[k])
    decreases |picked|
  {
    var init := picked[..|picked| - 1];
    var d := CopyInto(dest, init);
    var c := picked[|picked| - 1].(uid := NextUid(d));
    assert CopyInto(dest, picked) == d + [c];
    if k < |init| {
      CopyIntoCopyAt(dest, init, k);
      assert (d + [c])[|dest| + k] == d[|dest| + k] && picked[k] == init[k];
    }
  }

  /** The largest UID after one more message. */
  lemma {:induction false} MaxUidSnoc(msgs: seq<Message>, m: Message)
    ensures MaxUid(msgs + [m]) == if m.uid > MaxUid(msgs) then m.uid else MaxUid(msgs)
  {
    assert (msgs + [m])[..|msgs|] == msgs;
  }

  /** Without wrap-around, copying raises the destination's largest UID by
      the number of copies. */
  lemma {:induction false} CopyIntoMaxUid(dest: seq<Message>, picked: seq<Message>)
    requires MaxUid(dest) + |picked| <= 0xFFFF_FFFF
    ensures MaxUid(CopyInto(dest, picked)) == MaxUid(dest) + |picked|
  {
    if picked != [] {
      var init := picked[..|picked| - 1];
      var d := CopyInto(dest, init);
      CopyIntoMaxUid(dest, init);
      var c := picked[|picked| - 1].(uid := NextUid(d));
      assert CopyInto(dest, picked) == d + [c];
      MaxUidSnoc(d, c);
    }
  }

  /** Without wrap-around, the copy at index `i` takes the `i - |dest| + 1`-th
      UID after the destination's largest. */
  lemma {:induction false} CopyIntoUidAt(dest: seq<Message>, picked: seq<Message>, i: nat)
    requires MaxUid(dest) + |picked| <= 0xFFFF_FFFF
    requires |dest| <= i < |dest| + |picked|
    ensures CopyInto(dest, picked)[i].uid == MaxUid(dest) + (i - |dest|) + 1
    decreases |picked|
  {
    var init := picked[..|picked| - 1];
    var d := CopyInto(dest, init);
    var c := picked[|picked| - 1].(uid := NextUid(d));
    assert CopyInto(dest, picked) == d + [c];
    if i == |d| {
      CopyIntoMaxUid(dest, init);
    } else {
      CopyIntoUidAt(dest, init, i);
      assert (d + [c])[i] == d[i];
    }
  }

  /** Without wrap-around each copy's UID exceeds every UID before it, those
      of the destination's earlier messages included. */
  lemma {:induction false} CopyIntoUids(dest: seq<Message>, picked: seq<Message>)
    requires MaxUid(dest) + |picked| <= 0xFFFF_FFFF
    ensures var r := CopyInto(dest, picked);
      && MaxUid(r) == MaxUid(dest) + |picked|
      && (forall i :: |dest| <= i < |r| ==> r[i].uid == MaxUid(dest) + (i - |dest|) + 1)
      && (forall i, j :: |dest| <= i < |r| && 0 <= j < i ==> r[j].uid < r[i].uid)
  {
    var r := CopyInto(dest, picked);
    CopyIntoMaxUid(dest, picked);
    forall i | |dest| <= i < |r| ensures r[i].uid == MaxUid(dest) + (i - |dest|) + 1 {
      CopyIntoUidAt(dest, picked, i);
    }
    forall i, j | |dest| <= i < |r| && 0 <= j < i ensures r[j].uid < r[i].uid {
      if j < |dest| {
        assert r[j] == dest[j];
      }
    }
  }

  /** One more index visited by a copy loop picks that message when it is
      selected. */
  lemma {:induction false} PickedStep(msgs: seq<Message>, i: nat, uid: bool, seqset: SeqSet)
    requires i < |msgs|
    ensures Picked(msgs[..i + 1], uid, seqset)
         == Picked(msgs[..i], uid, seqset) + (if Selected(msgs[i], i, uid, seqset) then [msgs[i]] else [])
  {
    assert msgs[..i + 1][..i] == msgs[..i];
  }

  /** Appending one more picked message appends one more copy. */
  lemma {:induction false} CopyIntoStep(dest: seq<Message>, picked: seq<Message>, m: Message)
    ensures CopyInto(dest, picked + [m]) == CopyInto(dest, picked) + [m.(uid := NextUid(CopyInto(dest, picked)))]
  {
    assert (picked + [m])[..|picked|] == picked;
  }

  /** Visiting one more index of a flag update changes that message only,
      and only when it is selected. */
  lemma {:induction false} UpdatedUpToStep(msgs: seq<Message>, i: nat, uid: bool, seqset: SeqSet, op: FlagsOp, flags: seq<Flag>)
    requires i < |msgs|
    ensures UpdatedUpTo(msgs, i, uid, seqset, op, flags)[i] == msgs[i]
    ensures UpdatedUpTo(msgs, i + 1, uid, seqset, op, flags)
         == UpdatedUpTo(msgs, i, uid, seqset, op, flags)[i :=
              if Selected(msgs[i], i, uid, seqset) then msgs[i].(flags := Merge(msgs[i].flags, op, flags))
              else msgs[i]]
  {
  }

  lemma {:induction false} UpdateInPrefix(a: seq<Message>, tail: seq<Message>, i: nat, x: Message)
    requires i < |a|
    ensures (a + tail)[i := x] == a[i := x] + tail
  {
  }

  /** One step of a move within a single mailbox: appending the copy of
      message `i` and then marking message `i` deleted in place keeps the list
      equal to the copies made so far appended to the partly marked list. */
  lemma {:induction false} MoveStepWithin(src: seq<Message>, i: nat, uid: bool, seqset: SeqSet)
    requires i < |src| && Selected(src[i], i, uid, seqset)
    ensures var before := CopyInto(UpdatedUpTo(src, i, uid, seqset, AddFlags, [Deleted]), Picked(src[..i], uid, seqset));
      var appended := before + [src[i].(uid := NextUid(before))];
      appended[i := appended[i].(flags := Merge(appended[i].flags, AddFlags, [Deleted]))]
        == CopyInto(UpdatedUpTo(src, i + 1, uid, seqset, AddFlags, [Deleted]), Picked(src[..i + 1], uid, seqset))
  {
    var u0 := UpdatedUpTo(src, i, uid, seqset, AddFlags, [Deleted]);
    var u1 := UpdatedUpTo(src, i + 1, uid, seqset, AddFlags, [Deleted]);
    var p0 := Picked(src[..i], uid, seqset);
    var p1 := Picked(src[..i + 1], uid, seqset);
    var before := CopyInto(u0, p0);
    var appended := before + [src[i].(uid := NextUid(before))];
    var marked := src[i].(flags := Merge(src[i].flags, AddFlags, [Deleted]));
    PickedStep(src, i, uid, seqset);
    UpdatedUpToStep(src, i, uid, seqset, AddFlags, [Deleted]);
    CopyIntoStep(u0, p0, src[i]);
    assert appended == CopyInto(u0, p1);
    var tail := CopyIntoRebase(u0, u1, p1);
    assert appended[i] == src[i];
    UpdateInPrefix(u0, tail, i, marked);
  }

  /** Copying onto two lists with the same UIDs appends the same copies. */
  lemma {:induction false} CopyIntoRebase(a: seq<Message>, b: seq<Message>, picked: seq<Message>)
    returns (tail: seq<Message>)
    requires |a| == |b| && forall k :: 0 <= k < |a| ==> a[k].uid == b[k].uid
    ensures CopyInto(a, picked) == a + tail && CopyInto(b, picked) == b + tail
  {
    if picked == [] {
      tail := [];
    } else {
      var init := picked[..|picked| - 1];
      var t := CopyIntoRebase(a, b, init);
      SameUidsAppend(a, b, t);
      var copy := picked[|picked| - 1].(uid := NextUid(a + t));
      tail := t + [copy];
      assert CopyInto(a, picked) == CopyInto(a, init) + [copy];
      assert CopyInto(b, picked) == CopyInto(b, init) + [copy];
      AppendAssoc(a, t, copy);
      AppendAssoc(b, t, copy);
    }
  }

  lemma {:induction false} AppendAssoc(a: seq<Message>, t: seq<Message>, x: Message)
    ensures (a + t) + [x] == a + (t + [x])
  {
  }

  lemma {:induction false} SameUidsAppend(a: seq<Message>, b: seq<Message>, t: seq<Message>)
    requires |a| == |b| && forall k :: 0 <= k < |a| ==> a[k].uid == b[k].uid
    ensures NextUid(a + t) == NextUid(b + t)
  {
    MaxUidOfSameUids(a + t, b + t);
  }

  // ---------------------------------------------------------------------------
  // MOVE (RFC 6851)

  /** The messages a move leaves in its source: those neither selected nor
      already marked `\Deleted`, in order. */
  function Survivors(msgs: seq<Message>, uid: bool, seqset: SeqSet): seq<Message>
  {
    if msgs == [] then []
    else
      var last := msgs[|msgs| - 1];
      Survivors(msgs[..|msgs| - 1], uid, seqset)
        + (if !Selected(last, |msgs| - 1, uid, seqset) && !HasFlag(last, Deleted) then [last] else [])
  }

  /** Marking the selected messages `\Deleted` and expunging leaves exactly
      the survivors, followed by whatever the expunge keeps of `extra`. */
  lemma {:induction false} MoveLeavesSurvivors(msgs: seq<Message>, uid: bool, seqset: SeqSet, extra: seq<Message>)
    ensures Expunged(Updated(msgs, uid, seqset, AddFlags, [Deleted]) + extra)
         == Survivors(msgs, uid, seqset) + Expunged(extra)
  {
    var u := Updated(msgs, uid, seqset, AddFlags, [Deleted]);
    ExpungedConcat(u, extra);
    MarkedThenExpunged(msgs, uid, seqset);
  }

  /** A move into the same mailbox also keeps the survivors, in order, ahead
      of whatever copies the expunge keeps. */
  lemma {:induction false} MoveWithinKeepsSurvivors(msgs: seq<Message>, uid: bool, seqset: SeqSet)
    ensures var marked := Updated(msgs, uid, seqset, AddFlags, [Deleted]);
      Survivors(msgs, uid, seqset) <= Expunged(CopyInto(marked, Picked(msgs, uid, seqset)))
  {
    var marked := Updated(msgs, uid, seqset, AddFlags, [Deleted]);
    var all := CopyInto(marked, Picked(msgs, uid, seqset));
    assert all == marked + all[|marked|..];
    MoveLeavesSurvivors(msgs, uid, seqset, all[|marked|..]);
  }

  lemma {:induction false} MarkedThenExpunged(msgs: seq<Message>, uid: bool, seqset: SeqSet)
    ensures Expunged(Updated(msgs, uid, seqset, AddFlags, [Deleted])) == Survivors(msgs, uid, seqset)
  {
    if msgs != [] {
      var n := |msgs|;
      var init, last := msgs[..n - 1], msgs[n - 1];
      var u := Updated(msgs, uid, seqset, AddFlags, [Deleted]);
      MarkedThenExpunged(init, uid, seqset);
      assert u[..n - 1] == Updated(init, uid, seqset, AddFlags, [Deleted]);
      if Selected(last, n - 1, uid, seqset) {
        AddContainsOperands(last.flags, [Deleted]);
        assert HasFlag(u[n - 1], Deleted);
      }
    }
  }
}
