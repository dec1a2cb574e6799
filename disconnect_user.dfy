/**
  The disconnect handler: a socket that goes away leaves the waiting queue,
  its partner (if it was in a conversation) is told and marked as waiting,
  the conversation is ended in the store, and the socket's presence entry is
  dropped.
 */
module DisconnectUser {
  import opened Common
  import opened Storage
  import opened FindPartner

  /** The position of the first entry equal to `s`, if any. */
  function FirstIndex(q: seq<SocketId>, s: SocketId): (r: Option<nat>)
    ensures r.None? <==> s !in q
    ensures r.Some? ==> r.value < |q| && q[r.value] == s && s !in q[..r.value]
  {
    if q == [] then None
    else if q[0] == s then Some(0)
    else
      var r := FirstIndex(q[1..], s);
      if r.None? then None
      else
        assert q[1..][..r.value] == q[1..r.value + 1];
        Some(r.value + 1)
  }

  /** The queue without its entry at position k. */
  function RemoveAt(q: seq<SocketId>, k: nat): (r: seq<SocketId>)
    requires k < |q|
    ensures |r| == |q| - 1
  {
    q[..k] + q[k + 1..]
  }

  /** Removing an entry closes the gap and keeps every other entry in its order. */
  lemma RemoveAtShifts(q: seq<SocketId>, k: nat)
    requires k < |q|
    ensures forall j :: 0 <= j < |q| - 1 ==> RemoveAt(q, k)[j] == (if j < k then q[j] else q[j + 1])
  {
    var left, right := q[..k], q[k + 1..];
    assert RemoveAt(q, k) == left + right;
    forall j | 0 <= j < |q| - 1
      ensures (left + right)[j] == (if j < k then q[j] else q[j + 1])
    {
      if j >= k {
        assert (left + right)[j] == right[j - k];
      }
    }
  }

  /** The queue without its first entry equal to `s`; unchanged when there is none. */
  function RemoveFirst(q: seq<SocketId>, s: SocketId): seq<SocketId>
  {
    var i := FirstIndex(q, s);
    if i.None? then q else RemoveAt(q, i.value)
  }

  /** Removing drops exactly one occurrence of `s` when there is one and keeps every other entry. */
  lemma RemoveFirstCount(q: seq<SocketId>, s: SocketId)
    ensures s !in q ==> RemoveFirst(q, s) == q
    ensures s in q ==> |RemoveFirst(q, s)| == |q| - 1 && multiset(RemoveFirst(q, s)) == multiset(q) - multiset{s}
  {
    var i := FirstIndex(q, s);
    if i.Some? {
      var k := i.value;
      assert q == q[..k] + [s] + q[k + 1..];
      assert multiset(q) == multiset(q[..k]) + multiset{s} + multiset(q[k + 1..]);
    }
  }

  /** A repetition-free queue stays repetition-free and no longer holds `s`. */
  lemma RemoveFirstDistinct(q: seq<SocketId>, s: SocketId)
    requires Distinct(q)
    ensures Distinct(RemoveFirst(q, s)) && s !in RemoveFirst(q, s)
  {
    if s in q {
      var k := FirstIndex(q, s).value;
      var r := RemoveAt(q, k);
      RemoveAtShifts(q, k);
      forall a, b | 0 <= a < b < |r|
        ensures r[a] != r[b]
      {
        var a', b' := if a < k then a else a + 1, if b < k then b else b + 1;
        assert r[a] == q[a'] && r[b] == q[b'];
      }
      forall j | 0 <= j < |r|
        ensures r[j] != s
      {
        var j' := if j < k then j else j + 1;
        assert r[j] == q[j'] && j' != k;
      }
    }
  }

  /** The first participant other than `s`, as the handler's partner lookup finds it. */
  function FirstOther(ps: seq<SocketId>, s: SocketId): (r: Option<SocketId>)
    ensures r.None? <==> forall k :: 0 <= k < |ps| ==> ps[k] == s
    ensures r.Some? ==> r.value in ps && r.value != s
  {
    if ps == [] then None
    else if ps[0] != s then Some(ps[0])
    else
      var r := FirstOther(ps[1..], s);
      assert forall k :: 1 <= k < |ps| ==> ps[k] == ps[1..][k - 1];
      r
  }

  /** In a two-party conversation that `s` belongs to, the partner is the other participant. */
  lemma PartnerOfPair(ps: seq<SocketId>, s: SocketId)
    requires |ps| == 2 && s in ps && ps[0] != ps[1]
    ensures FirstOther(ps, s) == Some(if ps[0] == s then ps[1] else ps[0])
  {
    if ps[0] == s {
      assert ps[1..] == [ps[1]];
    }
  }

  /** The active conversation the store's index resolves `s` to, if any. */
  function ActiveConversationOf(t: Tables, s: SocketId): Option<Conversation>
  {
    if s in t.index && t.index[s] in t.conversations && t.conversations[t.index[s]].isActive
    then Some(t.conversations[t.index[s]])
    else None
  }

  /**
    Ending the conversation a socket resolves to leaves neither of its
    participants indexed, so neither resolves to an active conversation.
   */
  lemma EndedUnindexes(t: Tables, s: SocketId)
    requires ActiveConversationOf(t, s).Some?
    requires forall id :: id in t.conversations ==> t.conversations[id].id == id
    ensures var c := ActiveConversationOf(t, s).value;
      forall p :: p in c.participants ==> ActiveConversationOf(Ended(t, c.id), p).None?
  {
  }

  /**
    Ends the active conversation the store resolves `socket` to: the store
    becomes `Ended` for it, its complete index stays complete, and neither
    participant resolves to an active conversation afterwards.
   */
  method EndResolved(storage: StorageService, socket: SocketId, conversation: Conversation)
    requires storage.Valid() && ActiveConversationOf(storage.Snapshot(), socket) == Some(conversation)
    modifies storage
    ensures storage.Valid()
    ensures old(storage.Paired()) ==> storage.Paired()
    ensures storage.Snapshot() == Ended(old(storage.Snapshot()), conversation.id)
    ensures forall p :: p in conversation.participants ==> ActiveConversationOf(storage.Snapshot(), p).None?
  {
    EndedUnindexes(storage.Snapshot(), socket);
    var _ := storage.EndConversation(conversation.id);
  }

  /**
    Handles the disconnect of `socket`. The queue loses the socket's first
    entry. When the store resolves the socket to an active conversation, the
    partner gets a `PartnerDisconnected` event and the waiting state, but is
    not put back into the queue, and the conversation is ended. Finally the
    socket's own presence entry is dropped.
   */
  method Execute(room: WaitingRoom, socket: SocketId) returns (events: seq<Event>)
    requires room.Valid()
    modifies room`waitingQueue, room`socketStore, room.storage
    ensures room.Valid()
    ensures old(room.storage.Paired()) ==> room.storage.Paired()
    ensures room.waitingQueue == RemoveFirst(old(room.waitingQueue), socket)
    ensures var c := ActiveConversationOf(old(room.storage.Snapshot()), socket);
      && (c.None? ==>
            && events == [] && room.socketStore == old(room.socketStore) - {socket}
            && room.storage.Snapshot() == old(room.storage.Snapshot()))
      && (c.Some? ==>
            var partner := FirstOther(c.value.participants, socket);
            && events == (if partner.Some? then [PartnerDisconnected(partner.value)] else [])
            && room.socketStore
               == (if partner.Some? then old(room.socketStore)[partner.value := WaitingState] else old(room.socketStore))
                  - {socket}
            && room.storage.Snapshot() == Ended(old(room.storage.Snapshot()), c.value.id)
            && forall p :: p in c.value.participants ==> ActiveConversationOf(room.storage.Snapshot(), p).None?)
  {
    var storage := room.storage;
    ghost var t0 := storage.Snapshot();
    RemoveFirstDistinct(room.waitingQueue, socket);
    room.waitingQueue := RemoveFirst(room.waitingQueue, socket);
    events := [];
    var conversation := storage.FindConversationByParticipant(socket);
    assert storage.Snapshot() == t0;
    assert conversation == ActiveConversationOf(t0, socket);
    if conversation.Some? {
      var partner := FirstOther(conversation.value.participants, socket);
      if partner.Some? {
        events := [PartnerDisconnected(partner.value)];
        room.socketStore := room.socketStore[partner.value := WaitingState];
      }
      EndResolved(storage, socket, conversation.value);
    } else {
      assert storage.Snapshot() == t0;
    }
    ghost var kept := room.socketStore;
    if socket in room.socketStore {
      room.socketStore := room.socketStore - {socket};
    } else {
      assert kept - {socket} == kept;
    }
    assert room.socketStore == kept - {socket};
  }
}
