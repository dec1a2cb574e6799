/**
  The idle reaper: conversations whose last activity lies further back than
  the idle timeout are ended, and their ids and participants are handed back
  so that the participants can be told.
 */
module Timeout {
  import opened Common
  import opened Storage

  /** What the reaper reports for one ended conversation. */
  datatype IdleConversation = IdleConversation(id: Id, participants: seq<SocketId>)

  /** The tables after ending the conversations `ids`, one after the other in that order. */
  function EndedAll(t: Tables, ids: seq<Id>): Tables
  {
    if ids == [] then t else Ended(EndedAll(t, ids[..|ids| - 1]), ids[|ids| - 1])
  }

  /**
    Ending a list of known conversations keeps every record and the order,
    marks exactly the listed records inactive and leaves every other record
    as it was.
   */
  lemma {:induction false} EndedAllRecords(t: Tables, ids: seq<Id>)
    ensures EndedAll(t, ids).conversations.Keys == t.conversations.Keys
    ensures EndedAll(t, ids).order == t.order && EndedAll(t, ids).idCounter == t.idCounter
    ensures forall id :: id in t.conversations ==>
      EndedAll(t, ids).conversations[id]
      == (if id in ids then t.conversations[id].(isActive := false) else t.conversations[id])
  {
    if ids != [] {
      var init, last := ids[..|ids| - 1], ids[|ids| - 1];
      EndedAllRecords(t, init);
      assert forall id :: id in ids <==> id in init || id == last;
    }
  }

  /**
    After the reaper's candidates at `threshold` are ended, no active
    conversation is idle at `threshold`, so a second sweep finds nothing.
   */
  lemma NoIdleLeft(t: Tables, threshold: int)
    requires forall id :: id in t.conversations <==> id in t.order
    ensures var after := EndedAll(t, IdleIds(t.order, t.conversations, threshold));
      && (forall id :: id in after.conversations && after.conversations[id].isActive ==>
            after.conversations[id].lastActivity >= threshold)
      && IdleIds(after.order, after.conversations, threshold) == []
  {
    var ids := IdleIds(t.order, t.conversations, threshold);
    var after := EndedAll(t, ids);
    EndedAllRecords(t, ids);
    EmptyWhenNoMember(IdleIds(after.order, after.conversations, threshold));
  }

  lemma EmptyWhenNoMember<T>(s: seq<T>)
    ensures (forall x :: x !in s) ==> s == []
  {
    if s != [] {
      assert s[0] in s;
    }
  }

  /** The report for ending `ids`: each id with its record's participants, in order. */
  function Notices(t: Tables, ids: seq<Id>): (r: seq<IdleConversation>)
    requires forall id :: id in ids ==> id in t.conversations
    ensures |r| == |ids|
  {
    seq(|ids|, k requires 0 <= k < |ids| => IdleConversation(ids[k], t.conversations[ids[k]].participants))
  }

  /** One more step of the fold ends the next id, whose record is still the original one. */
  lemma EndedAllStep(t: Tables, ids: seq<Id>, i: nat)
    requires i < |ids| && Distinct(ids) && ids[i] in t.conversations
    ensures EndedAll(t, ids[..i + 1]) == Ended(EndedAll(t, ids[..i]), ids[i])
    ensures ids[i] in EndedAll(t, ids[..i]).conversations
    ensures EndedAll(t, ids[..i]).conversations[ids[i]] == t.conversations[ids[i]]
  {
    assert ids[..i + 1][..i] == ids[..i];
    EndedAllRecords(t, ids[..i]);
    assert ids[i] !in ids[..i];
  }

  /** What the reaper records about one candidate before ending it. */
  function Entry(c: Conversation): IdleConversation
  {
    IdleConversation(c.id, c.participants)
  }

  /** The first `i` records are those of the first `i` candidates. */
  predicate Reports(notify: seq<IdleConversation>, idle: seq<Conversation>, i: nat)
  {
    i <= |idle| && |notify| == i && forall k :: 0 <= k < i ==> notify[k] == Entry(idle[k])
  }

  lemma ReportsGrow(notify: seq<IdleConversation>, idle: seq<Conversation>, i: nat)
    requires Reports(notify, idle, i) && i < |idle|
    ensures Reports(notify + [Entry(idle[i])], idle, i + 1)
  {
  }

  /** Ends the next candidate of the sweep, which is still active when it is ended. */
  method EndCandidate(storage: StorageService, ghost t0: Tables, ghost ids: seq<Id>, i: nat, id: Id)
    requires i < |ids| && Distinct(ids) && id == ids[i]
    requires storage.Valid() && storage.Snapshot() == EndedAll(t0, ids[..i])
    requires id in t0.conversations && t0.conversations[id].isActive
    modifies storage
    ensures storage.Valid()
    ensures old(storage.Paired()) ==> storage.Paired()
    ensures storage.Snapshot() == EndedAll(t0, ids[..i + 1])
  {
    EndedAllStep(t0, ids, i);
    var _ := storage.EndConversation(id);
  }

  /**
    The sweep's loop: records and ends each candidate in turn. The
    candidates are distinct known conversations, active at the start.
   */
  method EndEach(storage: StorageService, idle: seq<Conversation>, ghost t0: Tables, ghost ids: seq<Id>)
    returns (notify: seq<IdleConversation>)
    requires storage.Valid() && storage.Snapshot() == t0
    requires |idle| == |ids| && Distinct(ids)
    requires forall k :: 0 <= k < |idle| ==>
      idle[k].id == ids[k] && ids[k] in t0.conversations && t0.conversations[ids[k]].isActive
    modifies storage
    ensures storage.Valid()
    ensures old(storage.Paired()) ==> storage.Paired()
    ensures storage.Snapshot() == EndedAll(t0, ids)
    ensures Reports(notify, idle, |idle|)
  {
    ghost var paired0 := storage.Paired();
    notify := [];
    var i := 0;
    while i < |idle|
      invariant 0 <= i <= |idle|
      invariant storage.Valid()
      invariant paired0 ==> storage.Paired()
      invariant storage.Snapshot() == EndedAll(t0, ids[..i])
      invariant Reports(notify, idle, i)
    {
      var conversation := idle[i];
      ReportsGrow(notify, idle, i);
      notify := notify + [Entry(conversation)];
      EndCandidate(storage, t0, ids, i, conversation.id);
      i := i + 1;
    }
    assert ids[..i] == ids;
  }

  /**
    Finds the conversations idle since before `now - idleTimeoutMs`, records
    each for notification and ends it, then returns the records. The store
    ends each candidate while it is still active, so a complete participant
    index stays complete.
   */
  method TimeoutIdleConversations(storage: StorageService, idleTimeoutMs: int, now: int)
    returns (notify: seq<IdleConversation>)
    requires storage.Valid()
    modifies storage
    ensures storage.Valid()
    ensures old(storage.Paired()) ==> storage.Paired()
    ensures var t := old(storage.Snapshot());
      var ids := IdleIds(t.order, t.conversations, now - idleTimeoutMs);
      notify == Notices(t, ids) && storage.Snapshot() == EndedAll(t, ids)
  {
    var threshold := now - idleTimeoutMs;
    ghost var t0 := old(storage.Snapshot());
    ghost var ids := IdleIds(old(storage.Snapshot()).order, old(storage.Snapshot()).conversations, now - idleTimeoutMs);
    var idle := storage.FindIdleConversations(threshold);
    assert storage.Snapshot() == t0;
    forall k | 0 <= k < |idle|
      ensures idle[k] == t0.conversations[ids[k]] && idle[k].id == ids[k] && idle[k].isActive
    {
      assert ids[k] in ids;
    }
    notify := EndEach(storage, idle, t0, ids);
    forall k | 0 <= k < |notify|
      ensures notify[k] == Notices(t0, ids)[k]
    {
      assert notify[k] == Entry(idle[k]);
    }
    assert notify == Notices(t0, ids);
  }
}
