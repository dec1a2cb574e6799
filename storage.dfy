/**
  The in-memory conversation and message store: the single source of truth
  for who is paired with whom. Three linked maps (conversation records, the
  participant index from socket id to conversation id, and the per-
  conversation message buffers) plus an id counter, all updated in place.
 */
module Storage {
  import opened Common

  datatype Conversation = Conversation(
    id: Id,
    participants: seq<SocketId>,
    isActive: bool,
    lastActivity: int,
    createdAt: int)

  datatype Message = Message(
    id: Id,
    conversationId: Id,
    sender: SocketId,
    content: string,
    createdAt: int)

  datatype Stats = Stats(
    totalConversations: nat,
    activeConversations: nat,
    totalMessages: nat,
    activeParticipants: nat)

  /** The errors the store throws, one per distinct message of the source. */
  datatype StoreError =
    | WrongParticipantCount
    | AlreadyInConversation(participant: SocketId)
    | NotFound(conversationId: Id)
    | NotActive(conversationId: Id)
    | NotParticipant(sender: SocketId, conversationId: Id)

  datatype Result<T> = Ok(value: T) | Err(error: StoreError)

  /** A snapshot of the store's fields, for stating what a sequence of operations did to them. */
  datatype Tables = Tables(
    conversations: map<Id, Conversation>,
    order: seq<Id>,
    index: map<SocketId, Id>,
    messages: map<Id, seq<Message>>,
    idCounter: nat)

  /**
    The tables after conversation `id` was ended: the record stays but is
    inactive, its participants lose their index entries and its buffer is
    dropped. An unknown id changes nothing.
   */
  function Ended(t: Tables, id: Id): Tables
  {
    if id !in t.conversations then t
    else
      var c := t.conversations[id];
      t.(conversations := t.conversations[id := c.(isActive := false)],
         index := t.index - (set p | p in c.participants),
         messages := t.messages - {id})
  }

  /** A stored record is filed under its own id, has two participants and an issued id. */
  predicate WellFormed(id: Id, c: Conversation, idCounter: nat)
  {
    c.id == id && |c.participants| == 2 && 1 <= id.serial <= idCounter
  }

  /** Every index entry points to an active conversation that lists the socket. */
  predicate IndexSound(index: map<SocketId, Id>, conversations: map<Id, Conversation>)
  {
    forall s {:trigger index[s]} :: s in index ==>
      index[s] in conversations && conversations[index[s]].isActive
      && s in conversations[index[s]].participants
  }

  /** Every participant of an active conversation is indexed to that conversation. */
  predicate IndexComplete(index: map<SocketId, Id>, conversations: map<Id, Conversation>)
  {
    forall id, p :: id in conversations && conversations[id].isActive && p in conversations[id].participants
      ==> p in index && index[p] == id
  }

  /** With a complete index, no socket takes part in two active conversations. */
  lemma AtMostOneActiveConversation(index: map<SocketId, Id>, conversations: map<Id, Conversation>,
                                    s: SocketId, id1: Id, id2: Id)
    requires IndexComplete(index, conversations)
    requires id1 in conversations && conversations[id1].isActive && s in conversations[id1].participants
    requires id2 in conversations && conversations[id2].isActive && s in conversations[id2].participants
    ensures id1 == id2
  {
    assert s in index && index[s] == id1;
    assert index[s] == id2;
  }

  /** The active ids of a conversation map. */
  function ActiveIds(conversations: map<Id, Conversation>): set<Id>
  {
    set id | id in conversations && conversations[id].isActive
  }

  /**
    The ids, taken in the order `order` lists them (map insertion order), of
    the active conversations whose last activity is strictly before `threshold`.
   */
  function IdleIds(order: seq<Id>, conversations: map<Id, Conversation>, threshold: int): (ids: seq<Id>)
    ensures forall id :: id in ids <==>
      id in order && id in conversations && conversations[id].isActive
      && conversations[id].lastActivity < threshold
    ensures Distinct(order) ==> Distinct(ids)
  {
    if order == [] then []
    else
      var id := order[|order| - 1];
      var prefix := IdleIds(order[..|order| - 1], conversations, threshold);
      assert forall x :: x in order <==> x in order[..|order| - 1] || x == id;
      if id in conversations && conversations[id].isActive && conversations[id].lastActivity < threshold
      then prefix + [id]
      else prefix
  }

  /** How many of the ids in `order` name active conversations. */
  function CountActive(order: seq<Id>, conversations: map<Id, Conversation>): nat
  {
    if order == [] then 0
    else
      var id := order[|order| - 1];
      CountActive(order[..|order| - 1], conversations)
      + (if id in conversations && conversations[id].isActive then 1 else 0)
  }

  /** The total length of the message buffers of the ids in `order`. */
  function TotalMessages(order: seq<Id>, messages: map<Id, seq<Message>>): nat
  {
    if order == [] then 0
    else
      var id := order[|order| - 1];
      TotalMessages(order[..|order| - 1], messages) + (if id in messages then |messages[id]| else 0)
  }

  /** Counting the active entries of a repetition-free id list gives the size of the active set. */
  lemma {:induction false} CountActiveIsCardinality(order: seq<Id>, conversations: map<Id, Conversation>)
    requires Distinct(order)
    ensures CountActive(order, conversations)
         == |set id | id in order && id in conversations && conversations[id].isActive|
  {
    if order != [] {
      var id := order[|order| - 1];
      var prefix := order[..|order| - 1];
      assert order == prefix + [id];
      assert Distinct(prefix);
      assert id !in prefix;
      CountActiveIsCardinality(prefix, conversations);
      var before := set x | x in prefix && x in conversations && conversations[x].isActive;
      var after := set x | x in order && x in conversations && conversations[x].isActive;
      if id in conversations && conversations[id].isActive {
        assert after == before + {id};
      } else {
        assert after == before;
      }
    }
  }

  /** After a buffer is dropped, the total shrinks by exactly that buffer's length. */
  lemma {:induction false} TotalMessagesAfterRemove(order: seq<Id>, messages: map<Id, seq<Message>>, id: Id)
    requires Distinct(order) && id in order && id in messages
    ensures TotalMessages(order, messages) == TotalMessages(order, messages - {id}) + |messages[id]|
  {
    var last := order[|order| - 1];
    var prefix := order[..|order| - 1];
    assert Distinct(prefix);
    if last == id {
      assert id !in prefix;
      TotalMessagesUnaffected(prefix, messages, id);
    } else {
      assert id in prefix;
      TotalMessagesAfterRemove(prefix, messages, id);
    }
  }

  lemma {:induction false} TotalMessagesUnaffected(order: seq<Id>, messages: map<Id, seq<Message>>, id: Id)
    requires id !in order
    ensures TotalMessages(order, messages) == TotalMessages(order, messages - {id})
  {
    if order != [] {
      TotalMessagesUnaffected(order[..|order| - 1], messages, id);
    }
  }

  /** The links between the store's maps that every operation keeps. */
  ghost predicate Linked(conversations: map<Id, Conversation>, order: seq<Id>, index: map<SocketId, Id>,
                   messages: map<Id, seq<Message>>, idCounter: nat)
  {
    && Distinct(order)
    && (forall id {:trigger id in order} :: id in conversations <==> id in order)
    && (forall id {:trigger conversations[id]} :: id in conversations ==> WellFormed(id, conversations[id], idCounter))
    && (forall id {:trigger id in messages} :: id in messages <==> id in conversations && conversations[id].isActive)
    && (forall id, k {:trigger messages[id][k]} :: id in messages && 0 <= k < |messages[id]| ==>
          messages[id][k].conversationId == id
          && messages[id][k].sender in conversations[id].participants)
    && IndexSound(index, conversations)
  }

  /** Creating a conversation for two unindexed sockets keeps the links, and a complete index complete. */
  lemma CreateKeepsLinks(conversations: map<Id, Conversation>, order: seq<Id>, index: map<SocketId, Id>,
                         messages: map<Id, seq<Message>>, idCounter: nat, participants: seq<SocketId>, now: int)
    requires Linked(conversations, order, index, messages, idCounter)
    requires |participants| == 2 && participants[0] !in index && participants[1] !in index
    ensures var id := Id(now, idCounter + 1);
      var c := Conversation(id, participants, true, now, now);
      var index' := index[participants[0] := id][participants[1] := id];
      && id !in conversations
      && Linked(conversations[id := c], order + [id], index', messages[id := []], idCounter + 1)
      && (IndexComplete(index, conversations) ==> IndexComplete(index', conversations[id := c]))
  {
    var id := Id(now, idCounter + 1);
    var c := Conversation(id, participants, true, now, now);
    var conversations' := conversations[id := c];
    var index' := index[participants[0] := id][participants[1] := id];
    assert id in conversations ==> WellFormed(id, conversations[id], idCounter);
    assert id !in order;
    forall x | x in order + [id]
      ensures x in conversations'
    {
    }
    assert Distinct(order + [id]);
    forall s | s in index'
      ensures index'[s] in conversations' && conversations'[index'[s]].isActive
              && s in conversations'[index'[s]].participants
    {
      if s != participants[0] && s != participants[1] {
        assert s in index;
      }
    }
    if IndexComplete(index, conversations) {
      forall x, p | x in conversations' && conversations'[x].isActive && p in conversations'[x].participants
        ensures p in index' && index'[p] == x
      {
        if x != id {
          assert p in index && index[p] == x;
        }
      }
    }
  }

  /**
    Ending a recorded conversation keeps the links. It keeps a complete index
    complete only when the conversation was still active.
   */
  lemma EndKeepsLinks(conversations: map<Id, Conversation>, order: seq<Id>, index: map<SocketId, Id>,
                      messages: map<Id, seq<Message>>, idCounter: nat, id: Id)
    requires Linked(conversations, order, index, messages, idCounter)
    requires id in conversations
    ensures var c := conversations[id];
      var conversations' := conversations[id := c.(isActive := false)];
      var index' := index - {c.participants[0], c.participants[1]};
      && Linked(conversations', order, index', messages - {id}, idCounter)
      && (IndexComplete(index, conversations) && c.isActive ==> IndexComplete(index', conversations'))
  {
    var c := conversations[id];
    assert WellFormed(id, c, idCounter);
    var conversations' := conversations[id := c.(isActive := false)];
    var index' := index - {c.participants[0], c.participants[1]};
    forall s | s in index'
      ensures index'[s] in conversations' && conversations'[index'[s]].isActive
              && s in conversations'[index'[s]].participants
    {
      assert s in index;
      assert index[s] == id ==> s in c.participants;
    }
    forall x, k | x in messages - {id} && 0 <= k < |(messages - {id})[x]|
      ensures (messages - {id})[x][k].conversationId == x
              && (messages - {id})[x][k].sender in conversations'[x].participants
    {
      assert messages[x][k].sender in conversations[x].participants;
    }
    if IndexComplete(index, conversations) && c.isActive {
      forall x, p | x in conversations' && conversations'[x].isActive && p in conversations'[x].participants
        ensures p in index' && index'[p] == x
      {
        assert x != id;
        assert p in index && index[p] == x;
        assert c.participants[0] in c.participants && c.participants[1] in c.participants;
        assert index[c.participants[0]] == id && index[c.participants[1]] == id;
      }
    }
  }

  class StorageService {
    var conversations: map<Id, Conversation>
    /** The keys of `conversations` in insertion order (the iteration order of a JavaScript Map). */
    var order: seq<Id>
    var participantIndex: map<SocketId, Id>
    var messages: map<Id, seq<Message>>
    var idCounter: nat

    /** The links between the three maps that every operation keeps. */
    ghost predicate Valid()
      reads this
    {
      Linked(conversations, order, participantIndex, messages, idCounter)
    }

    function Snapshot(): Tables
      reads this
    {
      Tables(conversations, order, participantIndex, messages, idCounter)
    }

    /**
      The converse of the index's soundness. It is kept by every operation
      except ending a conversation that has already been ended.
     */
    ghost predicate Paired()
      reads this
    {
      IndexComplete(participantIndex, conversations)
    }

    constructor ()
      ensures Valid() && Paired()
      ensures conversations == map[] && order == [] && participantIndex == map[]
      ensures messages == map[] && idCounter == 0
    {
      conversations := map[];
      order := [];
      participantIndex := map[];
      messages := map[];
      idCounter := 0;
    }

    /** Issues the next id: the counter goes up by one, so no id is issued twice. */
    method GenerateId(now: int) returns (id: Id)
      modifies this`idCounter
      ensures idCounter == old(idCounter) + 1
      ensures id == Id(now, idCounter)
    {
      idCounter := idCounter + 1;
      id := Id(now, idCounter);
    }

    method CreateConversation(participants: seq<SocketId>, now: int) returns (r: Result<Conversation>)
      requires Valid()
      modifies this
      ensures Valid()
      ensures old(Paired()) ==> Paired()
      ensures |participants| != 2 ==> r == Err(WrongParticipantCount)
      ensures |participants| == 2 && participants[0] in old(participantIndex)
        ==> r == Err(AlreadyInConversation(participants[0]))
      ensures |participants| == 2 && participants[0] !in old(participantIndex) && participants[1] in old(participantIndex)
        ==> r == Err(AlreadyInConversation(participants[1]))
      ensures r.Ok? <==>
        |participants| == 2 && participants[0] !in old(participantIndex) && participants[1] !in old(participantIndex)
      ensures r.Err? ==> unchanged(this)
      ensures r.Ok? ==>
        var id := Id(now, old(idCounter) + 1);
        && r.value == Conversation(id, participants, true, now, now)
        && id !in old(conversations)
        && idCounter == old(idCounter) + 1
        && conversations == old(conversations)[id := r.value]
        && order == old(order) + [id]
        && participantIndex == old(participantIndex)[participants[0] := id][participants[1] := id]
        && messages == old(messages)[id := []]
    {
      if |participants| != 2 {
        return Err(WrongParticipantCount);
      }
      var participant1, participant2 := participants[0], participants[1];
      if participant1 in participantIndex {
        return Err(AlreadyInConversation(participant1));
      }
      if participant2 in participantIndex {
        return Err(AlreadyInConversation(participant2));
      }
      var conversation := Insert(participant1, participant2, now);
      r := Ok(conversation);
    }

    /** The success path of `CreateConversation`: records, indexes and buffers a fresh conversation. */
    method Insert(participant1: SocketId, participant2: SocketId, now: int) returns (conversation: Conversation)
      requires Valid() && participant1 !in participantIndex && participant2 !in participantIndex
      modifies this
      ensures Valid()
      ensures old(Paired()) ==> Paired()
      ensures var id := Id(now, old(idCounter) + 1);
        && conversation == Conversation(id, [participant1, participant2], true, now, now)
        && id !in old(conversations)
        && idCounter == old(idCounter) + 1
        && conversations == old(conversations)[id := conversation]
        && order == old(order) + [id]
        && participantIndex == old(participantIndex)[participant1 := id][participant2 := id]
        && messages == old(messages)[id := []]
    {
      CreateKeepsLinks(conversations, order, participantIndex, messages, idCounter, [participant1, participant2], now);
      var id := GenerateId(now);
      conversation := Conversation(id, [participant1, participant2], true, now, now);
      conversations := conversations[id := conversation];
      order := order + [id];
      participantIndex := participantIndex[participant1 := id][participant2 := id];
      messages := messages[id := []];
    }

    /**
      The active conversation the socket takes part in, if any. An index
      entry whose record is missing is dropped on the way.
     */
    method FindConversationByParticipant(socketId: SocketId) returns (r: Option<Conversation>)
      modifies this`participantIndex
      ensures socketId !in old(participantIndex) ==> r == None && participantIndex == old(participantIndex)
      ensures socketId in old(participantIndex) && old(participantIndex)[socketId] !in conversations
        ==> r == None && participantIndex == old(participantIndex) - {socketId}
      ensures socketId in old(participantIndex) && old(participantIndex)[socketId] in conversations
        ==> participantIndex == old(participantIndex)
            && r == (var c := conversations[old(participantIndex)[socketId]]; if c.isActive then Some(c) else None)
      ensures old(Valid()) ==> Valid() && participantIndex == old(participantIndex)
      ensures old(Valid()) && r.Some? ==>
        r.value.id in conversations && conversations[r.value.id] == r.value
        && r.value.isActive && socketId in r.value.participants
    {
      if socketId !in participantIndex {
        return None;
      }
      var conversationId := participantIndex[socketId];
      if conversationId !in conversations {
        participantIndex := participantIndex - {socketId};
        return None;
      }
      var conversation := conversations[conversationId];
      r := if conversation.isActive then Some(conversation) else None;
    }

    /** Stamps the conversation's last activity with `now`; an unknown id changes nothing. */
    method UpdateConversationActivity(conversationId: Id, now: int)
      requires Valid()
      modifies this`conversations
      ensures Valid()
      ensures old(Paired()) ==> Paired()
      ensures conversations == if conversationId in old(conversations)
        then old(conversations)[conversationId := old(conversations)[conversationId].(lastActivity := now)]
        else old(conversations)
    {
      if conversationId in conversations {
        var conversation := conversations[conversationId];
        conversations := conversations[conversationId := conversation.(lastActivity := now)];
      }
    }

    method SaveMessage(conversationId: Id, sender: SocketId, content: string, now: int) returns (r: Result<Message>)
      requires Valid()
      modifies this
      ensures Valid()
      ensures old(Paired()) ==> Paired()
      ensures conversationId !in old(conversations) ==> r == Err(NotFound(conversationId))
      ensures conversationId in old(conversations) && !old(conversations)[conversationId].isActive
        ==> r == Err(NotActive(conversationId))
      ensures conversationId in old(conversations) && old(conversations)[conversationId].isActive
              && sender !in old(conversations)[conversationId].participants
        ==> r == Err(NotParticipant(sender, conversationId))
      ensures r.Ok? <==>
        conversationId in old(conversations) && old(conversations)[conversationId].isActive
        && sender in old(conversations)[conversationId].participants
      ensures r.Err? ==> unchanged(this)
      ensures r.Ok? ==>
        var m := Message(Id(now, old(idCounter) + 1), conversationId, sender, content, now);
        && conversationId in old(messages)
        && r.value == m
        && idCounter == old(idCounter) + 1
        && messages == old(messages)[conversationId := old(messages)[conversationId] + [m]]
        && conversations == old(conversations)[conversationId := old(conversations)[conversationId].(lastActivity := now)]
        && participantIndex == old(participantIndex) && order == old(order)
    {
      if conversationId !in conversations {
        return Err(NotFound(conversationId));
      }
      var conversation := conversations[conversationId];
      if !conversation.isActive {
        return Err(NotActive(conversationId));
      }
      if sender !in conversation.participants {
        return Err(NotParticipant(sender, conversationId));
      }
      var messageId := GenerateId(now);
      var message := Message(messageId, conversationId, sender, content, now);
      if conversationId in messages {
        messages := messages[conversationId := messages[conversationId] + [message]];
      }
      UpdateConversationActivity(conversationId, now);
      r := Ok(message);
    }

    /** The conversation's messages in the order they were saved; empty for an unknown or ended one. */
    method GetMessagesByConversation(conversationId: Id) returns (r: seq<Message>)
      requires Valid()
      ensures r == if conversationId in messages then messages[conversationId] else []
      ensures r != [] ==> conversationId in conversations && conversations[conversationId].isActive
      ensures forall k :: 0 <= k < |r| ==>
        r[k].conversationId == conversationId && r[k].sender in conversations[conversationId].participants
    {
      r := if conversationId in messages then messages[conversationId] else [];
    }

    method EndConversation(conversationId: Id) returns (found: bool)
      requires Valid()
      modifies this
      ensures Valid()
      ensures found <==> conversationId in old(conversations)
      ensures !found ==> unchanged(this)
      ensures found ==>
        var c := old(conversations)[conversationId];
        && conversations == old(conversations)[conversationId := c.(isActive := false)]
        && participantIndex == old(participantIndex) - {c.participants[0], c.participants[1]}
        && messages == old(messages) - {conversationId}
        && order == old(order) && idCounter == old(idCounter)
      ensures found && old(conversations)[conversationId].isActive && old(Paired()) ==> Paired()
      ensures Snapshot() == Ended(old(Snapshot()), conversationId)
    {
      if conversationId !in conversations {
        return false;
      }
      EndKeepsLinks(conversations, order, participantIndex, messages, idCounter, conversationId);
      var conversation := conversations[conversationId];
      assert (set p | p in conversation.participants) == {conversation.participants[0], conversation.participants[1]};
      conversations := conversations[conversationId := conversation.(isActive := false)];
      participantIndex := participantIndex - {conversation.participants[0], conversation.participants[1]};
      messages := messages - {conversationId};
      found := true;
    }

    /** The active conversations idle since before `threshold`, in insertion order. */
    method FindIdleConversations(threshold: int) returns (idle: seq<Conversation>)
      requires Valid()
      ensures |idle| == |IdleIds(order, conversations, threshold)|
      ensures forall k :: 0 <= k < |idle| ==> idle[k] == conversations[IdleIds(order, conversations, threshold)[k]]
    {
      idle := [];
      var i := 0;
      while i < |order|
        invariant 0 <= i <= |order|
        invariant |idle| == |IdleIds(order[..i], conversations, threshold)|
        invariant forall k :: 0 <= k < |idle| ==> idle[k] == conversations[IdleIds(order[..i], conversations, threshold)[k]]
      {
        assert order[..i + 1][..i] == order[..i];
        assert order[i] in order;
        var conversation := conversations[order[i]];
        if conversation.isActive && conversation.lastActivity < threshold {
          idle := idle + [conversation];
        }
        i := i + 1;
      }
      assert order[..i] == order;
    }

    method GetStats() returns (s: Stats)
      requires Valid()
      ensures s.totalConversations == |conversations|
      ensures s.activeConversations == |ActiveIds(conversations)| == |messages|
      ensures s.totalMessages == TotalMessages(order, messages)
      ensures s.activeParticipants == |participantIndex|
    {
      var active := 0;
      var total := 0;
      var i := 0;
      while i < |order|
        invariant 0 <= i <= |order|
        invariant active == CountActive(order[..i], conversations)
        invariant total == TotalMessages(order[..i], messages)
      {
        assert order[..i + 1][..i] == order[..i];
        var id := order[i];
        assert id in order;
        if conversations[id].isActive {
          active := active + 1;
        }
        if id in messages {
          total := total + |messages[id]|;
        }
        i := i + 1;
      }
      assert order[..i] == order;
      CountActiveIsCardinality(order, conversations);
      assert (set id | id in order && id in conversations && conversations[id].isActive) == ActiveIds(conversations);
      assert messages.Keys == ActiveIds(conversations);
      s := Stats(|conversations|, active, total, |participantIndex|);
    }

    method Clear()
      modifies this
      ensures Valid() && Paired()
      ensures conversations == map[] && order == [] && participantIndex == map[]
      ensures messages == map[] && idCounter == 0
    {
      conversations := map[];
      order := [];
      participantIndex := map[];
      messages := map[];
      idCounter := 0;
    }
  }
}
