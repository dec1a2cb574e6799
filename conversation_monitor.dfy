/**
  The conversation monitor: a start/stop switch over an interval timer whose
  tick runs the idle reaper and tells every still-connected participant of
  each timed-out conversation. The runtime's timers are modelled by the set
  of live interval handles and a counter that issues fresh ones.
 */
module ConversationMonitor {
  import opened Common
  import opened Storage
  import opened Timeout

  /** How long a conversation may stay idle, in milliseconds. */
  const IdleTimeout: int := 60 * 1000
  /** The tick period, in milliseconds. */
  const CheckInterval: nat := 10 * 1000

  /**
    The monitor's handle field together with the runtime's view of the
    timers it scheduled: the live intervals with their periods and the next
    fresh handle.
   */
  datatype MonitorState = MonitorState(intervalId: Option<nat>, live: map<nat, nat>, nextHandle: nat)

  /** The handle field names the only live interval, if any, and every handle was issued. */
  predicate Coherent(s: MonitorState)
  {
    && (s.intervalId.None? ==> s.live == map[])
    && (s.intervalId.Some? ==> s.live.Keys == {s.intervalId.value} && s.intervalId.value < s.nextHandle)
  }

  /** Starting clears the current interval, if any, and schedules a fresh one. */
  function Started(s: MonitorState): (r: MonitorState)
    ensures Coherent(s) ==> Coherent(r)
    ensures r.intervalId == Some(s.nextHandle) && s.nextHandle < r.nextHandle
    ensures Coherent(s) ==> r.live == map[s.nextHandle := CheckInterval]
  {
    var cleared := if s.intervalId.Some? then s.live - {s.intervalId.value} else s.live;
    MonitorState(Some(s.nextHandle), cleared[s.nextHandle := CheckInterval], s.nextHandle + 1)
  }

  /** Stopping clears the current interval and the handle field; a stopped monitor stays as it is. */
  function Stopped(s: MonitorState): (r: MonitorState)
    ensures Coherent(s) ==> Coherent(r) && r.live == map[]
    ensures r.intervalId.None? && r.nextHandle == s.nextHandle
    ensures s.intervalId.None? ==> r == s
  {
    if s.intervalId.Some? then MonitorState(None, s.live - {s.intervalId.value}, s.nextHandle) else s
  }

  datatype Command = Start | Stop

  function Apply(s: MonitorState, cmds: seq<Command>): MonitorState
    decreases |cmds|
  {
    if cmds == [] then s
    else Apply(if cmds[0].Start? then Started(s) else Stopped(s), cmds[1..])
  }

  /**
    Whatever sequence of starts and stops is issued from the initial state,
    at most one interval is live, and it is the one the handle field names.
   */
  lemma {:induction false} AtMostOneLive(s: MonitorState, cmds: seq<Command>)
    requires Coherent(s)
    ensures Coherent(Apply(s, cmds)) && |Apply(s, cmds).live.Keys| <= 1
    decreases |cmds|
  {
    if cmds != [] {
      AtMostOneLive(if cmds[0].Start? then Started(s) else Stopped(s), cmds[1..]);
    } else if s.intervalId.Some? {
      assert |s.live.Keys| == |{s.intervalId.value}|;
    }
  }

  /** The `conversation-timeout` events for the reaper's report, to the participants still connected. */
  function TimeoutNotices(report: seq<IdleConversation>, connected: set<SocketId>): seq<Event>
    decreases |report|
  {
    if report == [] then []
    else NoticesFor(report[0].participants, report[0].id, connected) + TimeoutNotices(report[1..], connected)
  }

  /** The events for one timed-out conversation, in participant order. */
  function NoticesFor(participants: seq<SocketId>, id: Id, connected: set<SocketId>): seq<Event>
    decreases |participants|
  {
    if participants == [] then []
    else
      (if participants[0] in connected then [ConversationTimeout(participants[0], id)] else [])
      + NoticesFor(participants[1..], id, connected)
  }

  lemma NoticesForStep(participants: seq<SocketId>, j: nat, id: Id, connected: set<SocketId>)
    requires j < |participants|
    ensures NoticesFor(participants[j..], id, connected)
      == (if participants[j] in connected then [ConversationTimeout(participants[j], id)] else [])
         + NoticesFor(participants[j + 1..], id, connected)
  {
    assert participants[j..][1..] == participants[j + 1..];
  }

  lemma TimeoutNoticesStep(report: seq<IdleConversation>, i: nat, connected: set<SocketId>)
    requires i < |report|
    ensures TimeoutNotices(report[i..], connected)
      == NoticesFor(report[i].participants, report[i].id, connected) + TimeoutNotices(report[i + 1..], connected)
  {
    assert report[i..][1..] == report[i + 1..];
  }

  lemma EmitShift(done: seq<Event>, e: Event, tail: seq<Event>, rest: seq<Event>)
    ensures (done + [e]) + (tail + rest) == done + (([e] + tail) + rest)
  {
  }

  /** A conversation's events go exactly to its connected participants and carry its id. */
  lemma {:induction false} NoticesForExact(participants: seq<SocketId>, id: Id, connected: set<SocketId>, e: Event)
    ensures e in NoticesFor(participants, id, connected) <==>
      e.ConversationTimeout? && e.conversationId == id && e.to in participants && e.to in connected
    decreases |participants|
  {
    if participants != [] {
      NoticesForExact(participants[1..], id, connected, e);
      assert forall p :: p in participants <==> p == participants[0] || p in participants[1..];
    }
  }

  /**
    An event is among a tick's events exactly when it is a
    `conversation-timeout` to a still-connected participant of a timed-out
    conversation, carrying that conversation's id.
   */
  lemma {:induction false} TimeoutNoticesExact(report: seq<IdleConversation>, connected: set<SocketId>, e: Event)
    ensures e in TimeoutNotices(report, connected) <==>
      e.ConversationTimeout? && e.to in connected
      && exists k :: 0 <= k < |report| && report[k].id == e.conversationId && e.to in report[k].participants
    decreases |report|
  {
    if report != [] {
      NoticesForExact(report[0].participants, report[0].id, connected, e);
      TimeoutNoticesExact(report[1..], connected, e);
      if e.ConversationTimeout? && e.to in connected {
        if exists k :: 0 <= k < |report| && report[k].id == e.conversationId && e.to in report[k].participants {
          var k :| 0 <= k < |report| && report[k].id == e.conversationId && e.to in report[k].participants;
          if k > 0 {
            assert report[1..][k - 1] == report[k];
          }
        }
        if exists k :: 0 <= k < |report[1..]| && report[1..][k].id == e.conversationId && e.to in report[1..][k].participants {
          var k :| 0 <= k < |report[1..]| && report[1..][k].id == e.conversationId && e.to in report[1..][k].participants;
          assert report[k + 1] == report[1..][k];
        }
      }
    }
  }

  class Monitor {
    var intervalId: Option<nat>
    /** The runtime's live intervals scheduled by this monitor, with their periods. */
    var live: map<nat, nat>
    /** The runtime's next fresh timer handle. */
    var nextHandle: nat

    function State(): MonitorState
      reads this
    {
      MonitorState(intervalId, live, nextHandle)
    }

    constructor ()
      ensures State() == MonitorState(None, map[], 0) && Coherent(State())
    {
      intervalId := None;
      live := map[];
      nextHandle := 0;
    }

    /** Clears the current interval if there is one, then schedules the tick every `CheckInterval`. */
    method Start()
      modifies this
      ensures State() == Started(old(State()))
    {
      if intervalId.Some? {
        live := live - {intervalId.value};
      }
      live := live[nextHandle := CheckInterval];
      intervalId := Some(nextHandle);
      nextHandle := nextHandle + 1;
    }

    /** Clears the current interval and the handle field; does nothing when stopped. */
    method Stop()
      modifies this
      ensures State() == Stopped(old(State()))
    {
      if intervalId.Some? {
        live := live - {intervalId.value};
        intervalId := None;
      }
    }

    /**
      One tick: the reaper ends the idle conversations, then each participant
      of each reported conversation that still has a connection is sent
      `conversation-timeout` with that conversation's id.
     */
    method CheckIdleConversations(storage: StorageService, connected: set<SocketId>, now: int)
      returns (events: seq<Event>)
      requires storage.Valid()
      modifies storage
      ensures storage.Valid()
      ensures old(storage.Paired()) ==> storage.Paired()
      ensures var t := old(storage.Snapshot());
        var ids := IdleIds(t.order, t.conversations, now - IdleTimeout);
        && storage.Snapshot() == EndedAll(t, ids)
        && events == TimeoutNotices(Notices(t, ids), connected)
    {
      var report := TimeoutIdleConversations(storage, IdleTimeout, now);
      events := Notify(report, connected);
    }

    /** The tick's notification loops over the reaper's report. */
    method Notify(report: seq<IdleConversation>, connected: set<SocketId>) returns (events: seq<Event>)
      ensures events == TimeoutNotices(report, connected)
    {
      events := [];
      var i := 0;
      while i < |report|
        invariant 0 <= i <= |report|
        invariant events + TimeoutNotices(report[i..], connected) == TimeoutNotices(report, connected)
      {
        var conversation := report[i];
        TimeoutNoticesStep(report, i, connected);
        ghost var rest := TimeoutNotices(report[i + 1..], connected);
        var j := 0;
        while j < |conversation.participants|
          invariant 0 <= j <= |conversation.participants|
          invariant events + (NoticesFor(conversation.participants[j..], conversation.id, connected) + rest)
                    == TimeoutNotices(report, connected)
        {
          var participant := conversation.participants[j];
          NoticesForStep(conversation.participants, j, conversation.id, connected);
          ghost var tail := NoticesFor(conversation.participants[j + 1..], conversation.id, connected);
          if participant in connected {
            var e := ConversationTimeout(participant, conversation.id);
            EmitShift(events, e, tail, rest);
            events := events + [e];
          } else {
            assert [] + tail == tail;
          }
          j := j + 1;
        }
        assert conversation.participants[j..] == [];
        assert [] + rest == rest;
        i := i + 1;
      }
      assert report[i..] == [];
    }
  }
}
