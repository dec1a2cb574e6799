/**
  The waiting queue and the matcher. A connection that asks for a partner is
  appended to a FIFO queue (at most once); the matcher then repeatedly takes
  the two oldest entries, drops disconnected ones, and pairs the rest through
  the store until fewer than two remain or a pairing fails.
 */
module FindPartner {
  import opened Common
  import Storage

  /**
    The outcome of one matching pass: the queue it leaves, the pairs it
    formed (oldest first), and the pair whose pairing failed, if any.
   */
  datatype Pass = Pass(queue: seq<SocketId>, pairs: seq<(SocketId, SocketId)>, failure: Option<(SocketId, SocketId)>)

  /**
    The queue after the two head entries were taken and at least one of them
    is disconnected: the connected one, if any, goes back to the head.
   */
  function Requeue(s1: SocketId, s2: SocketId, rest: seq<SocketId>, live: set<SocketId>): (q: seq<SocketId>)
    requires s1 !in live || s2 !in live
    ensures |q| <= |rest| + 1
  {
    var q1 := if s1 in live then [s1] + rest else rest;
    if s2 in live then [s2] + q1 else q1
  }

  /**
    One matching pass over `queue`. `live` are the connected sockets and
    `indexed` the sockets the store already has in a conversation, which makes
    pairing them fail. Each step shrinks the queue by one or two entries or
    ends the pass, so it terminates.
   */
  function MatchPass(queue: seq<SocketId>, live: set<SocketId>, indexed: set<SocketId>): Pass
    decreases |queue|
  {
    if |queue| < 2 then Pass(queue, [], None)
    else
      var s1, s2, rest := queue[0], queue[1], queue[2..];
      if s1 !in live || s2 !in live then
        MatchPass(Requeue(s1, s2, rest, live), live, indexed)
      else if s1 in indexed || s2 in indexed then
        Pass([s2, s1] + rest, [], Some((s1, s2)))
      else
        var p := MatchPass(rest, live, indexed + {s1, s2});
        Pass(p.queue, [(s1, s2)] + p.pairs, p.failure)
  }

  /** The connected entries of a queue, in queue order. */
  function LiveOnly(q: seq<SocketId>, live: set<SocketId>): seq<SocketId>
  {
    if q == [] then [] else (if q[0] in live then [q[0]] else []) + LiveOnly(q[1..], live)
  }

  function Flatten(pairs: seq<(SocketId, SocketId)>): seq<SocketId>
  {
    if pairs == [] then [] else [pairs[0].0, pairs[0].1] + Flatten(pairs[1..])
  }

  /** The id the store issues for the i-th (0-based) conversation created after counter value c0. */
  function PairId(c0: nat, i: nat, now: int): Id
  {
    Id(now, c0 + i + 1)
  }

  /** What the two sockets of a new conversation are told: its id and each other's id. */
  function MatchedPair(a: SocketId, b: SocketId, id: Id): seq<Event>
  {
    [Matched(a, id, b), Matched(b, id, a)]
  }

  /** What the two sockets of a pairing that failed are told. */
  function FailedPair(a: SocketId, b: SocketId): seq<Event>
  {
    [PairingError(a), PairingError(b)]
  }

  /** The `matched` notices of a pass: each side learns the conversation id and the other's id. */
  function MatchEvents(pairs: seq<(SocketId, SocketId)>, c0: nat, now: int): seq<Event>
  {
    if pairs == [] then []
    else
      var n := |pairs| - 1;
      var id := PairId(c0, n, now);
      MatchEvents(pairs[..n], c0, now) + MatchedPair(pairs[n].0, pairs[n].1, id)
  }

  /** Everything a pass emits: the `matched` notices, then the pairing errors of a failed pair. */
  function PassEvents(p: Pass, c0: nat, now: int): seq<Event>
  {
    MatchEvents(p.pairs, c0, now)
    + (if p.failure.Some? then FailedPair(p.failure.value.0, p.failure.value.1) else [])
  }

  /** The socket store after every paired socket was marked as matched. */
  function MarkMatched(store: map<SocketId, UserState>, pairs: seq<(SocketId, SocketId)>): map<SocketId, UserState>
  {
    if pairs == [] then store
    else
      var n := |pairs| - 1;
      MarkMatched(store, pairs[..n])[pairs[n].0 := MatchedState][pairs[n].1 := MatchedState]
  }

  /**
    `p` keeps the arrival order of the connected entries `arrived`: its
    pairs, read left to right, followed by the connected entries left over,
    are `arrived`. Without a failure fewer than two entries remain; after a
    failure the failed pair is back at the head in swapped order.
   */
  predicate KeepsOrder(p: Pass, arrived: seq<SocketId>, live: set<SocketId>)
  {
    && (p.failure.None? ==> |p.queue| < 2 && Flatten(p.pairs) + LiveOnly(p.queue, live) == arrived)
    && (p.failure.Some? ==>
          var (a, b) := p.failure.value;
          && |p.queue| >= 2 && p.queue[0] == b && p.queue[1] == a && a in live && b in live
          && Flatten(p.pairs) + [a, b] + LiveOnly(p.queue[2..], live) == arrived)
  }

  /** A matching pass keeps the arrival order of the connected entries of its queue. */
  lemma {:induction false} MatchPassKeepsArrivalOrder(queue: seq<SocketId>, live: set<SocketId>, indexed: set<SocketId>)
    ensures KeepsOrder(MatchPass(queue, live, indexed), LiveOnly(queue, live), live)
    decreases |queue|
  {
    if |queue| >= 2 {
      var s1, s2, rest := queue[0], queue[1], queue[2..];
      LiveOnlyHead(queue, live);
      if s1 !in live || s2 !in live {
        RequeueKeepsLive(s1, s2, rest, live);
        MatchPassKeepsArrivalOrder(Requeue(s1, s2, rest, live), live, indexed);
      } else if s1 in indexed || s2 in indexed {
        var p := MatchPass(queue, live, indexed);
        assert p.queue[2..] == rest;
        assert Flatten(p.pairs) == [];
      } else {
        MatchPassKeepsArrivalOrder(rest, live, indexed + {s1, s2});
        KeepsOrderCons(s1, s2, MatchPass(rest, live, indexed + {s1, s2}), LiveOnly(rest, live), live);
      }
    }
  }

  /** Pairing (a, b) ahead of a pass that keeps the order of `arrived` keeps the order of a, b, `arrived`. */
  lemma KeepsOrderCons(a: SocketId, b: SocketId, p: Pass, arrived: seq<SocketId>, live: set<SocketId>)
    requires KeepsOrder(p, arrived, live)
    ensures KeepsOrder(Pass(p.queue, [(a, b)] + p.pairs, p.failure), [a, b] + arrived, live)
  {
    FlattenCons(a, b, p.pairs);
    var f := Flatten(p.pairs);
    if p.failure.None? {
      assert ([a, b] + f) + LiveOnly(p.queue, live) == [a, b] + (f + LiveOnly(p.queue, live));
    } else {
      var (x, y) := p.failure.value;
      var tail := LiveOnly(p.queue[2..], live);
      assert ([a, b] + f) + [x, y] + tail == [a, b] + (f + [x, y] + tail);
    }
  }

  /** The connected entries of a queue of two or more entries, split at the head pair. */
  lemma LiveOnlyHead(queue: seq<SocketId>, live: set<SocketId>)
    requires |queue| >= 2
    ensures LiveOnly(queue, live)
         == (if queue[0] in live then [queue[0]] else []) + (if queue[1] in live then [queue[1]] else [])
            + LiveOnly(queue[2..], live)
  {
    assert queue[1..][1..] == queue[2..];
  }

  /** Requeueing drops exactly the disconnected entries of the head pair. */
  lemma RequeueKeepsLive(s1: SocketId, s2: SocketId, rest: seq<SocketId>, live: set<SocketId>)
    requires s1 !in live || s2 !in live
    ensures LiveOnly(Requeue(s1, s2, rest, live), live)
         == (if s1 in live then [s1] else []) + (if s2 in live then [s2] else []) + LiveOnly(rest, live)
  {
    var q := Requeue(s1, s2, rest, live);
    if s1 in live {
      assert q == [s1] + rest && q[1..] == rest;
    } else if s2 in live {
      assert q == [s2] + rest && q[1..] == rest;
    }
  }

  lemma FlattenCons(a: SocketId, b: SocketId, pairs: seq<(SocketId, SocketId)>)
    ensures Flatten([(a, b)] + pairs) == [a, b] + Flatten(pairs)
  {
    assert ([(a, b)] + pairs)[1..] == pairs;
  }

  /** A pass only keeps entries it was given, and a repetition-free queue stays repetition-free. */
  lemma {:induction false} MatchPassKeepsEntries(queue: seq<SocketId>, live: set<SocketId>, indexed: set<SocketId>)
    ensures var p := MatchPass(queue, live, indexed);
      && (forall x :: x in p.queue ==> x in queue)
      && (Distinct(queue) ==> Distinct(p.queue))
    decreases |queue|
  {
    if |queue| >= 2 {
      var s1, s2, rest := queue[0], queue[1], queue[2..];
      assert queue == [s1, s2] + rest;
      if s1 !in live || s2 !in live {
        var q := Requeue(s1, s2, rest, live);
        assert forall x :: x in q ==> x in queue;
        if Distinct(queue) {
          assert s1 !in rest && s2 !in rest;
          assert Distinct(q);
        }
        MatchPassKeepsEntries(q, live, indexed);
      } else if s1 in indexed || s2 in indexed {
        var p := MatchPass(queue, live, indexed);
        assert p.queue == [s2, s1] + rest;
        if Distinct(queue) {
          assert s1 !in rest && s2 !in rest && s1 != s2;
        }
      } else {
        MatchPassKeepsEntries(rest, live, indexed + {s1, s2});
      }
    }
  }

  /**
    The two longest-waiting connected entries are matched first, provided
    neither of them is already in a conversation.
   */
  lemma {:induction false} OldestLivePairMatchedFirst(queue: seq<SocketId>, live: set<SocketId>, indexed: set<SocketId>)
    requires |LiveOnly(queue, live)| >= 2
    requires LiveOnly(queue, live)[0] !in indexed && LiveOnly(queue, live)[1] !in indexed
    ensures var p := MatchPass(queue, live, indexed);
      |p.pairs| >= 1 && p.pairs[0] == (LiveOnly(queue, live)[0], LiveOnly(queue, live)[1])
    decreases |queue|
  {
    var l := LiveOnly(queue, live);
    var s1, s2, rest := queue[0], queue[1], queue[2..];
    assert queue == [s1, s2] + rest;
    assert l == (if s1 in live then [s1] else []) + (if s2 in live then [s2] else []) + LiveOnly(rest, live) by {
      assert queue[1..] == [s2] + rest;
      assert queue[1..][1..] == rest;
    }
    if s1 !in live || s2 !in live {
      var q := Requeue(s1, s2, rest, live);
      assert LiveOnly(q, live) == l by {
        if s1 in live {
          assert q == [s1] + rest && q[1..] == rest;
        } else if s2 in live {
          assert q == [s2] + rest && q[1..] == rest;
        }
      }
      OldestLivePairMatchedFirst(q, live, indexed);
    } else {
      assert l[0] == s1 && l[1] == s2;
    }
  }

  /** No socket is paired twice, and only queued sockets that were not indexed are paired. */
  lemma {:induction false} MatchPassPairsFresh(queue: seq<SocketId>, live: set<SocketId>, indexed: set<SocketId>)
    requires Distinct(queue)
    ensures var p := MatchPass(queue, live, indexed);
      && Distinct(Flatten(p.pairs))
      && (forall s :: s in Flatten(p.pairs) ==> s !in indexed && s in queue)
    decreases |queue|
  {
    if |queue| >= 2 {
      var s1, s2, rest := queue[0], queue[1], queue[2..];
      DistinctHead(queue);
      if s1 !in live || s2 !in live {
        var q := Requeue(s1, s2, rest, live);
        RequeueDistinct(s1, s2, rest, live);
        MatchPassPairsFresh(q, live, indexed);
      } else if s1 in indexed || s2 in indexed {
        assert Flatten([]) == [];
      } else {
        MatchPassPairsFresh(rest, live, indexed + {s1, s2});
        var p' := MatchPass(rest, live, indexed + {s1, s2});
        FlattenCons(s1, s2, p'.pairs);
        DistinctCons2(s1, s2, Flatten(p'.pairs));
      }
    }
  }

  /** The two head entries of a repetition-free queue differ and do not recur in its rest, which is repetition-free. */
  lemma DistinctHead(queue: seq<SocketId>)
    requires |queue| >= 2 && Distinct(queue)
    ensures queue[0] != queue[1] && queue[0] !in queue[2..] && queue[1] !in queue[2..] && Distinct(queue[2..])
    ensures forall x :: x in queue <==> x == queue[0] || x == queue[1] || x in queue[2..]
  {
    assert queue == [queue[0], queue[1]] + queue[2..];
    assert forall k :: 0 <= k < |queue| - 2 ==> queue[2..][k] == queue[k + 2];
  }

  /** Appending a socket that is not queued keeps a queue repetition-free. */
  lemma DistinctSnoc(q: seq<SocketId>, x: SocketId)
    requires Distinct(q) && x !in q
    ensures Distinct(q + [x])
  {
    var q' := q + [x];
    forall i, j | 0 <= i < j < |q'|
      ensures q'[i] != q'[j]
    {
      assert q'[i] == q[i];
      if j < |q| {
        assert q'[j] == q[j];
      }
    }
  }

  /** Requeueing keeps a repetition-free queue repetition-free. */
  lemma RequeueDistinct(s1: SocketId, s2: SocketId, rest: seq<SocketId>, live: set<SocketId>)
    requires s1 !in live || s2 !in live
    requires s1 != s2 && s1 !in rest && s2 !in rest && Distinct(rest)
    ensures Distinct(Requeue(s1, s2, rest, live))
    ensures forall x :: x in Requeue(s1, s2, rest, live) ==> x == s1 || x == s2 || x in rest
  {
    var q := Requeue(s1, s2, rest, live);
    if s1 in live || s2 in live {
      assert q[1..] == rest;
      forall i, j | 0 <= i < j < |q|
        ensures q[i] != q[j]
      {
        assert q[j] == rest[j - 1];
        if i > 0 {
          assert q[i] == rest[i - 1];
        }
      }
    }
  }

  /** Putting two new, different sockets in front keeps a sequence repetition-free. */
  lemma DistinctCons2(a: SocketId, b: SocketId, f: seq<SocketId>)
    requires a != b && a !in f && b !in f && Distinct(f)
    ensures Distinct([a, b] + f)
  {
    var g := [a, b] + f;
    forall i, j | 0 <= i < j < |g|
      ensures g[i] != g[j]
    {
      if j >= 2 {
        assert g[j] == f[j - 2];
        if i >= 2 {
          assert g[i] == f[i - 2];
        }
      }
    }
  }

  /**
    When every queued socket is connected and free, and none is queued twice,
    the pass pairs them in arrival order, the first with the second, the third
    with the fourth and so on; an odd one out keeps waiting, and no pair fails.
   */
  lemma {:induction false} FreeArrivalsPairedInOrder(queue: seq<SocketId>, live: set<SocketId>, indexed: set<SocketId>)
    requires Distinct(queue) && forall x :: x in queue ==> x in live && x !in indexed
    ensures var p := MatchPass(queue, live, indexed);
      && p.failure.None?
      && |p.pairs| == |queue| / 2
      && (forall i :: 0 <= i < |p.pairs| ==> p.pairs[i] == (queue[2 * i], queue[2 * i + 1]))
      && p.queue == queue[2 * (|queue| / 2)..]
    decreases |queue|
  {
    if |queue| >= 2 {
      var s1, s2, rest := queue[0], queue[1], queue[2..];
      DistinctHead(queue);
      FreeArrivalsPairedInOrder(rest, live, indexed + {s1, s2});
      var p := MatchPass(rest, live, indexed + {s1, s2});
      assert MatchPass(queue, live, indexed) == Pass(p.queue, [(s1, s2)] + p.pairs, p.failure);
      forall i | 1 <= i < |p.pairs| + 1
        ensures ([(s1, s2)] + p.pairs)[i] == (queue[2 * i], queue[2 * i + 1])
      {
        assert rest[2 * (i - 1)] == queue[2 * i] && rest[2 * (i - 1) + 1] == queue[2 * i + 1];
      }
      assert rest[2 * (|rest| / 2)..] == queue[2 * (|queue| / 2)..];
    }
  }

  lemma {:induction false} FlattenAppend(xs: seq<(SocketId, SocketId)>, ys: seq<(SocketId, SocketId)>)
    ensures Flatten(xs + ys) == Flatten(xs) + Flatten(ys)
  {
    if xs != [] {
      assert (xs + ys)[0] == xs[0];
      assert (xs + ys)[1..] == xs[1..] + ys;
      FlattenAppend(xs[1..], ys);
    } else {
      assert xs + ys == ys;
    }
  }

  /** The ids issued for n conversations created after counter value c0, in order. */
  function NewIds(c0: nat, n: nat, now: int): (ids: seq<Id>)
    ensures |ids| == n
    ensures forall i :: 0 <= i < n ==> ids[i] == PairId(c0, i, now)
  {
    if n == 0 then [] else NewIds(c0, n - 1, now) + [PairId(c0, n - 1, now)]
  }

  /** Whether `id` is one of the ids issued for n conversations created after counter value c0. */
  predicate IsNewId(id: Id, c0: nat, n: nat, now: int)
  {
    id.stamp == now && c0 < id.serial <= c0 + n
  }

  /** The store's tables after a successful `CreateConversation([a, b], now)`. */
  function AfterCreate(t: Storage.Tables, a: SocketId, b: SocketId, now: int): Storage.Tables
  {
    var id := Id(now, t.idCounter + 1);
    Storage.Tables(
      t.conversations[id := Storage.Conversation(id, [a, b], true, now, now)],
      t.order + [id],
      t.index[a := id][b := id],
      t.messages[id := []],
      t.idCounter + 1)
  }

  /** The pair has its own active conversation `id`, with an empty buffer, and both sides are indexed to it. */
  predicate PairRecorded(t: Storage.Tables, pair: (SocketId, SocketId), id: Id, now: int)
  {
    && id in t.conversations && t.conversations[id] == Storage.Conversation(id, [pair.0, pair.1], true, now, now)
    && id in t.messages && t.messages[id] == []
    && pair.0 in t.index && t.index[pair.0] == id
    && pair.1 in t.index && t.index[pair.1] == id
  }

  /** Every id the tables hold was issued by the counter. */
  predicate IssuedBelow(t: Storage.Tables)
  {
    && (forall id :: id in t.conversations ==> id.serial <= t.idCounter)
    && (forall id :: id in t.messages ==> id.serial <= t.idCounter)
  }

  lemma LinkedIssuedBelow(t: Storage.Tables)
    requires Storage.Linked(t.conversations, t.order, t.index, t.messages, t.idCounter)
    ensures IssuedBelow(t)
  {
    forall id | id in t.conversations
      ensures id.serial <= t.idCounter
    {
      assert Storage.WellFormed(id, t.conversations[id], t.idCounter);
    }
  }

  /** The tables grew by `n` fresh conversations with empty buffers, appended to the creation order. */
  ghost predicate TablesGrown(t: Storage.Tables, base: Storage.Tables, n: nat, now: int)
  {
    && t.idCounter == base.idCounter + n
    && t.order == base.order + NewIds(base.idCounter, n, now)
    && (forall id :: id in t.conversations <==> id in base.conversations || IsNewId(id, base.idCounter, n, now))
    && (forall id :: id in base.conversations ==> t.conversations[id] == base.conversations[id])
    && (forall id :: id in t.messages <==> id in base.messages || IsNewId(id, base.idCounter, n, now))
    && (forall id :: id in base.messages ==> t.messages[id] == base.messages[id])
  }

  /** The participant index grew by exactly the paired sockets. */
  ghost predicate IndexGrown(t: Storage.Tables, base: Storage.Tables, pairs: seq<(SocketId, SocketId)>)
  {
    && (forall s :: s in t.index <==> s in base.index || s in Flatten(pairs))
    && (forall s :: s in base.index ==> t.index[s] == base.index[s])
  }

  /** The i-th pair owns the i-th new conversation. */
  ghost predicate PairsRecorded(t: Storage.Tables, base: Storage.Tables, pairs: seq<(SocketId, SocketId)>, now: int)
  {
    forall i :: 0 <= i < |pairs| ==> PairRecorded(t, pairs[i], PairId(base.idCounter, i, now), now)
  }

  /** `t` is `base` plus one fresh active conversation per pair, created in pair order; nothing else changed. */
  ghost predicate ExtendedBy(t: Storage.Tables, base: Storage.Tables, pairs: seq<(SocketId, SocketId)>, now: int)
  {
    && TablesGrown(t, base, |pairs|, now)
    && IndexGrown(t, base, pairs)
    && PairsRecorded(t, base, pairs, now)
  }

  lemma TablesStep(t: Storage.Tables, base: Storage.Tables, n: nat, a: SocketId, b: SocketId, now: int)
    requires IssuedBelow(base)
    requires TablesGrown(t, base, n, now)
    ensures TablesGrown(AfterCreate(t, a, b, now), base, n + 1, now)
  {
    var t' := AfterCreate(t, a, b, now);
    var id := PairId(base.idCounter, n, now);
    assert id == Id(now, t.idCounter + 1);
    assert NewIds(base.idCounter, n + 1, now) == NewIds(base.idCounter, n, now) + [id];
    assert id !in base.conversations && id !in base.messages;
    assert forall x :: x in t'.conversations <==> x in base.conversations || IsNewId(x, base.idCounter, n + 1, now);
    assert forall x :: x in t'.messages <==> x in base.messages || IsNewId(x, base.idCounter, n + 1, now);
  }

  lemma IndexStep(t: Storage.Tables, base: Storage.Tables, pairs: seq<(SocketId, SocketId)>, a: SocketId, b: SocketId, now: int)
    requires IndexGrown(t, base, pairs)
    requires a !in t.index && b !in t.index
    ensures IndexGrown(AfterCreate(t, a, b, now), base, pairs + [(a, b)])
  {
    FlattenAppend(pairs, [(a, b)]);
    assert Flatten([(a, b)]) == [a, b];
  }

  lemma PairsStep(t: Storage.Tables, base: Storage.Tables, pairs: seq<(SocketId, SocketId)>, a: SocketId, b: SocketId, now: int)
    requires PairsRecorded(t, base, pairs, now)
    requires t.idCounter == base.idCounter + |pairs|
    requires a !in t.index && b !in t.index
    ensures PairsRecorded(AfterCreate(t, a, b, now), base, pairs + [(a, b)], now)
  {
    var t' := AfterCreate(t, a, b, now);
    var pairs' := pairs + [(a, b)];
    var id := Id(now, t.idCounter + 1);
    forall i | 0 <= i < |pairs'|
      ensures PairRecorded(t', pairs'[i], PairId(base.idCounter, i, now), now)
    {
      if i < |pairs| {
        assert PairRecorded(t, pairs[i], PairId(base.idCounter, i, now), now);
        assert PairId(base.idCounter, i, now) != id;
      }
    }
  }

  lemma {:induction false} MatchEventsAppend(xs: seq<(SocketId, SocketId)>, ys: seq<(SocketId, SocketId)>, c0: nat, now: int)
    ensures MatchEvents(xs + ys, c0, now) == MatchEvents(xs, c0, now) + MatchEvents(ys, c0 + |xs|, now)
    decreases |ys|
  {
    if ys == [] {
      assert xs + ys == xs;
    } else {
      var n := |ys| - 1;
      assert (xs + ys)[..|xs| + n] == xs + ys[..n];
      MatchEventsAppend(xs, ys[..n], c0, now);
    }
  }

  lemma {:induction false} MarkMatchedAppend(store: map<SocketId, UserState>, xs: seq<(SocketId, SocketId)>, ys: seq<(SocketId, SocketId)>)
    ensures MarkMatched(store, xs + ys) == MarkMatched(MarkMatched(store, xs), ys)
    decreases |ys|
  {
    if ys == [] {
      assert xs + ys == xs;
    } else {
      var n := |ys| - 1;
      assert (xs + ys)[..|xs| + n] == xs + ys[..n];
      MarkMatchedAppend(store, xs, ys[..n]);
    }
  }

  lemma {:induction false} GrowAppend(base: Storage.Tables, xs: seq<(SocketId, SocketId)>, ys: seq<(SocketId, SocketId)>, now: int)
    ensures Grow(base, xs + ys, now) == Grow(Grow(base, xs, now), ys, now)
    decreases |ys|
  {
    if ys == [] {
      assert xs + ys == xs;
    } else {
      var n := |ys| - 1;
      assert (xs + ys)[..|xs| + n] == xs + ys[..n];
      GrowAppend(base, xs, ys[..n], now);
    }
  }

  /** One more successful pairing extends the recorded pairs by that pair. */
  lemma ExtendedStep(t: Storage.Tables, base: Storage.Tables, pairs: seq<(SocketId, SocketId)>,
                     a: SocketId, b: SocketId, now: int)
    requires IssuedBelow(base)
    requires ExtendedBy(t, base, pairs, now)
    requires a !in t.index && b !in t.index
    ensures ExtendedBy(AfterCreate(t, a, b, now), base, pairs + [(a, b)], now)
  {
    TablesStep(t, base, |pairs|, a, b, now);
    IndexStep(t, base, pairs, a, b, now);
    PairsStep(t, base, pairs, a, b, now);
  }

  /** The tables after creating one conversation per pair, in pair order. */
  function Grow(base: Storage.Tables, pairs: seq<(SocketId, SocketId)>, now: int): Storage.Tables
  {
    if pairs == [] then base
    else
      var n := |pairs| - 1;
      AfterCreate(Grow(base, pairs[..n], now), pairs[n].0, pairs[n].1, now)
  }

  /**
    Creating the conversations of pairwise distinct, previously unindexed
    sockets gives each pair a fresh conversation and changes nothing else.
   */
  lemma {:induction false} GrowExtends(base: Storage.Tables, pairs: seq<(SocketId, SocketId)>, now: int)
    requires IssuedBelow(base)
    requires Distinct(Flatten(pairs))
    requires forall s :: s in Flatten(pairs) ==> s !in base.index
    ensures ExtendedBy(Grow(base, pairs, now), base, pairs, now)
    decreases |pairs|
  {
    if pairs == [] {
      assert NewIds(base.idCounter, 0, now) == [];
      assert base.order + [] == base.order;
    } else {
      var n := |pairs| - 1;
      var init, a, b := pairs[..n], pairs[n].0, pairs[n].1;
      assert pairs == init + [(a, b)];
      FlattenAppend(init, [(a, b)]);
      assert Flatten([(a, b)]) == [a, b];
      var f := Flatten(init);
      assert Flatten(pairs) == f + [a, b];
      assert forall k :: 0 <= k < |f| ==> f[k] == Flatten(pairs)[k];
      assert Distinct(f);
      assert a !in f && b !in f by {
        assert Flatten(pairs)[|f|] == a && Flatten(pairs)[|f| + 1] == b;
      }
      assert forall s :: s in f ==> s in Flatten(pairs);
      GrowExtends(base, init, now);
      assert a in Flatten(pairs) && b in Flatten(pairs);
      ExtendedStep(Grow(base, init, now), base, init, a, b, now);
    }
  }

  /**
    What a matching pass does to the store: each pair it forms gets its own
    fresh active conversation, in pair order, and nothing else changes.
   */
  lemma MatchPassEffect(queue: seq<SocketId>, live: set<SocketId>, base: Storage.Tables, now: int)
    requires Distinct(queue)
    requires Storage.Linked(base.conversations, base.order, base.index, base.messages, base.idCounter)
    ensures var p := MatchPass(queue, live, base.index.Keys);
      ExtendedBy(Grow(base, p.pairs, now), base, p.pairs, now)
  {
    MatchPassPairsFresh(queue, live, base.index.Keys);
    LinkedIssuedBelow(base);
    GrowExtends(base, MatchPass(queue, live, base.index.Keys).pairs, now);
  }

  /**
    The variables of the matching loop: the queue, the socket store, the
    sockets the store has indexed, its id counter, the pairs formed so far,
    the events emitted so far, and whether the loop broke off after a failed
    pairing. The store itself follows from the pairs (see `Grow`).
   */
  datatype LoopState = LoopState(
    queue: seq<SocketId>,
    store: map<SocketId, UserState>,
    indexed: set<SocketId>,
    counter: nat,
    pairs: seq<(SocketId, SocketId)>,
    events: seq<Event>,
    stopped: bool)

  /**
    One round of the loop body on the two oldest entries: requeue the
    connected one(s) of a pair with a disconnected entry; otherwise try to
    pair them, which fails when the store already indexes one of them.
   */
  function Step(st: LoopState, live: set<SocketId>, now: int): (st': LoopState)
    requires |st.queue| >= 2
    ensures !st'.stopped ==> |st'.queue| < |st.queue|
  {
    var a, b, rest := st.queue[0], st.queue[1], st.queue[2..];
    if a !in live || b !in live then
      st.(queue := Requeue(a, b, rest, live))
    else if a in st.indexed || b in st.indexed then
      st.(queue := [b, a] + rest, events := st.events + FailedPair(a, b), stopped := true)
    else
      st.(queue := rest,
          store := st.store[a := MatchedState][b := MatchedState],
          indexed := st.indexed + {a, b},
          counter := st.counter + 1,
          pairs := st.pairs + [(a, b)],
          events := st.events + MatchedPair(a, b, Id(now, st.counter + 1)))
  }

  /** The state in which the loop ends when it is entered in `st`. */
  function Finish(st: LoopState, live: set<SocketId>, now: int): LoopState
    decreases |st.queue| + (if st.stopped then 0 else 1)
  {
    if st.stopped || |st.queue| < 2 then st else Finish(Step(st, live, now), live, now)
  }

  /** The three outcomes of a round, one lemma each. */
  lemma RequeueRound(st: LoopState, live: set<SocketId>, now: int)
    requires |st.queue| >= 2 && (st.queue[0] !in live || st.queue[1] !in live)
    ensures Step(st, live, now) == st.(queue := Requeue(st.queue[0], st.queue[1], st.queue[2..], live))
  {
  }

  lemma FailedRound(st: LoopState, live: set<SocketId>, now: int)
    requires |st.queue| >= 2 && st.queue[0] in live && st.queue[1] in live
    requires st.queue[0] in st.indexed || st.queue[1] in st.indexed
    ensures Step(st, live, now) == st.(queue := [st.queue[1], st.queue[0]] + st.queue[2..],
      events := st.events + FailedPair(st.queue[0], st.queue[1]), stopped := true)
  {
  }

  lemma PairedRound(st: LoopState, live: set<SocketId>, now: int)
    requires |st.queue| >= 2 && st.queue[0] in live && st.queue[1] in live
    requires st.queue[0] !in st.indexed && st.queue[1] !in st.indexed
    ensures var a, b := st.queue[0], st.queue[1];
      Step(st, live, now) == st.(queue := st.queue[2..],
        store := st.store[a := MatchedState][b := MatchedState],
        indexed := st.indexed + {a, b},
        counter := st.counter + 1,
        pairs := st.pairs + [(a, b)],
        events := st.events + MatchedPair(a, b, Id(now, st.counter + 1)))
  {
  }

  /** A round's effect does not depend on the pairs and events so far. */
  lemma StepFromScratch(st: LoopState, live: set<SocketId>, now: int)
    requires |st.queue| >= 2
    ensures var n := Step(st.(pairs := [], events := []), live, now);
      Step(st, live, now) == n.(pairs := st.pairs + n.pairs, events := st.events + n.events)
  {
    assert st.events + [] == st.events;
    assert st.pairs + [] == st.pairs;
  }

  /**
    The loop does what the matching pass describes: it leaves the pass's
    queue, marks the pass's pairs matched, forms the pass's pairs after the
    ones already formed, and emits the pass's events after the ones already
    emitted.
   */
  lemma {:induction false} FinishIsPass(st: LoopState, live: set<SocketId>, now: int)
    requires !st.stopped
    ensures var f, p := Finish(st, live, now), MatchPass(st.queue, live, st.indexed);
      && f.queue == p.queue
      && f.store == MarkMatched(st.store, p.pairs)
      && f.pairs == st.pairs + p.pairs
      && f.events == st.events + PassEvents(p, st.counter, now)
      && f.stopped == p.failure.Some?
    decreases |st.queue|
  {
    var q, indexed := st.queue, st.indexed;
    var p := MatchPass(q, live, indexed);
    if |q| < 2 {
      assert MatchEvents([], st.counter, now) == [];
      assert st.events + [] == st.events;
      assert st.pairs + [] == st.pairs;
    } else {
      var a, b, rest := q[0], q[1], q[2..];
      var st' := Step(st, live, now);
      if a !in live || b !in live {
        FinishIsPass(st', live, now);
      } else if a in indexed || b in indexed {
        assert p == Pass([b, a] + rest, [], Some((a, b)));
        assert MatchEvents([], st.counter, now) == [];
        assert st.pairs + [] == st.pairs;
      } else {
        var c0 := st.counter;
        FinishIsPass(st', live, now);
        var p' := MatchPass(rest, live, indexed + {a, b});
        assert p.pairs == [(a, b)] + p'.pairs;
        MarkMatchedAppend(st.store, [(a, b)], p'.pairs);
        assert MarkMatched(st.store, [(a, b)]) == st'.store by {
          assert [(a, b)][..0] == [];
        }
        assert p == Pass(p'.queue, [(a, b)] + p'.pairs, p'.failure);
        PassEventsCons(a, b, p', c0, now);
        var e1, e2 := MatchedPair(a, b, Id(now, c0 + 1)), PassEvents(p', c0 + 1, now);
        assert (st.events + e1) + e2 == st.events + (e1 + e2);
        assert st.pairs + [(a, b)] + p'.pairs == st.pairs + p.pairs;
      }
    }
  }

  /** The events of a pass that starts with pairing (a, b). */
  lemma PassEventsCons(a: SocketId, b: SocketId, p: Pass, c0: nat, now: int)
    ensures PassEvents(Pass(p.queue, [(a, b)] + p.pairs, p.failure), c0, now)
         == MatchedPair(a, b, Id(now, c0 + 1)) + PassEvents(p, c0 + 1, now)
  {
    MatchEventsAppend([(a, b)], p.pairs, c0, now);
    assert MatchEvents([(a, b)], c0, now) == MatchedPair(a, b, Id(now, c0 + 1)) by {
      assert [(a, b)][..0] == [];
    }
    var m1, m2 := MatchedPair(a, b, Id(now, c0 + 1)), MatchEvents(p.pairs, c0 + 1, now);
    var fail := if p.failure.Some? then FailedPair(p.failure.value.0, p.failure.value.1) else [];
    assert (m1 + m2) + fail == m1 + (m2 + fail);
  }

  /** A round keeps a repetition-free queue repetition-free. */
  lemma StepKeepsDistinct(st: LoopState, live: set<SocketId>, now: int)
    requires |st.queue| >= 2 && Distinct(st.queue)
    ensures Distinct(Step(st, live, now).queue)
  {
    var q := st.queue;
    DistinctHead(q);
    if q[0] !in live || q[1] !in live {
      RequeueDistinct(q[0], q[1], q[2..], live);
    } else if q[0] in st.indexed || q[1] in st.indexed {
      DistinctCons2(q[1], q[0], q[2..]);
    }
  }

  class WaitingRoom {
    /** The module-level waiting queue, oldest first. */
    var waitingQueue: seq<SocketId>
    /** The server's socket store: presence of each connection. */
    var socketStore: map<SocketId, UserState>
    const storage: Storage.StorageService

    ghost predicate Valid()
      reads this, storage
    {
      storage.Valid() && Distinct(waitingQueue)
    }

    constructor (storage: Storage.StorageService)
      requires storage.Valid()
      ensures Valid() && this.storage == storage
      ensures waitingQueue == [] && socketStore == map[]
    {
      this.storage := storage;
      waitingQueue := [];
      socketStore := map[];
    }

    /**
      A connection asks for a partner. A socket already queued is refused;
      otherwise it is appended, told to wait, marked waiting, and a matching
      pass runs over the whole queue.
     */
    method Execute(socket: SocketId, live: set<SocketId>, now: int) returns (added: bool, events: seq<Event>)
      requires Valid()
      modifies this, storage
      ensures Valid()
      ensures old(storage.Paired()) ==> storage.Paired()
      ensures added <==> socket !in old(waitingQueue)
      ensures !added ==> events == [] && unchanged(this) && unchanged(storage)
      ensures added ==>
        var p := MatchPass(old(waitingQueue) + [socket], live, old(storage.participantIndex).Keys);
        && waitingQueue == p.queue
        && events == [Waiting(socket)] + PassEvents(p, old(storage.idCounter), now)
        && socketStore == MarkMatched(old(socketStore)[socket := WaitingState], p.pairs)
        && storage.Snapshot() == Grow(old(storage.Snapshot()), p.pairs, now)
    {
      if socket in waitingQueue {
        return false, [];
      }
      DistinctSnoc(waitingQueue, socket);
      waitingQueue := waitingQueue + [socket];
      events := [Waiting(socket)];
      socketStore := socketStore[socket := WaitingState];
      ghost var st := LoopState(waitingQueue, socketStore, storage.participantIndex.Keys, storage.idCounter, [], [], false);
      ghost var p := MatchPass(st.queue, live, st.indexed);
      FinishIsPass(st, live, now);
      assert [] + p.pairs == p.pairs;
      assert [] + PassEvents(p, st.counter, now) == PassEvents(p, st.counter, now);
      var passEvents, _ := MatchAllWaitingUsers(live, now);
      events := events + passEvents;
      added := true;
    }

    /** The matching loop: pairs the two oldest entries while at least two are queued. */
    method MatchAllWaitingUsers(live: set<SocketId>, now: int) returns (events: seq<Event>, matchedCount: nat)
      requires Valid()
      modifies this`waitingQueue, this`socketStore, storage
      ensures Valid()
      ensures old(storage.Paired()) ==> storage.Paired()
      ensures var f := Finish(LoopState(old(waitingQueue), old(socketStore), old(storage.participantIndex).Keys,
                                        old(storage.idCounter), [], [], false), live, now);
        && waitingQueue == f.queue && socketStore == f.store && events == f.events && matchedCount == |f.pairs|
        && storage.Snapshot() == Grow(old(storage.Snapshot()), f.pairs, now)
    {
      events := [];
      matchedCount := 0;
      ghost var pairs: seq<(SocketId, SocketId)> := [];
      ghost var tables0 := storage.Snapshot();
      ghost var final := Finish(LoopState(waitingQueue, socketStore, storage.participantIndex.Keys,
                                          storage.idCounter, pairs, events, false), live, now);
      ghost var paired0 := storage.Paired();
      while |waitingQueue| >= 2
        invariant Valid()
        invariant paired0 ==> storage.Paired()
        invariant Finish(LoopState(waitingQueue, socketStore, storage.participantIndex.Keys,
                                   storage.idCounter, pairs, events, false), live, now) == final
        invariant storage.Snapshot() == Grow(tables0, pairs, now)
        invariant matchedCount == |pairs|
        decreases |waitingQueue|
      {
        ghost var st := LoopState(waitingQueue, socketStore, storage.participantIndex.Keys,
                                  storage.idCounter, pairs, events, false);
        ghost var n := Step(st.(pairs := [], events := []), live, now);
        StepFromScratch(st, live, now);
        var stop, roundEvents, paired := MatchHead(live, now);
        GrowAppend(tables0, pairs, n.pairs, now);
        pairs := pairs + n.pairs;
        events := events + roundEvents;
        if paired {
          matchedCount := matchedCount + 1;
        }
        if stop {
          break;
        }
      }
    }

    /**
      One pass of the loop body: takes the two oldest entries off the queue,
      puts the connected one(s) back when either is disconnected, and
      otherwise pairs them, putting both back in front after a failure.
     */
    method MatchHead(live: set<SocketId>, now: int) returns (stop: bool, events: seq<Event>, paired: bool)
      requires Valid() && |waitingQueue| >= 2
      modifies this`waitingQueue, this`socketStore, storage
      ensures Valid()
      ensures old(storage.Paired()) ==> storage.Paired()
      ensures var n := Step(LoopState(old(waitingQueue), old(socketStore), old(storage.participantIndex).Keys,
                                      old(storage.idCounter), [], [], false), live, now);
        && waitingQueue == n.queue && socketStore == n.store && events == n.events && stop == n.stopped
        && storage.participantIndex.Keys == n.indexed && storage.idCounter == n.counter
        && |n.pairs| == (if paired then 1 else 0)
        && storage.Snapshot() == Grow(old(storage.Snapshot()), n.pairs, now)
    {
      ghost var st := LoopState(waitingQueue, socketStore, storage.participantIndex.Keys, storage.idCounter, [], [], false);
      StepKeepsDistinct(st, live, now);
      var socket1, socket2 := waitingQueue[0], waitingQueue[1];
      waitingQueue := waitingQueue[2..];
      if socket1 !in live || socket2 !in live {
        if socket1 in live {
          waitingQueue := [socket1] + waitingQueue;
        }
        if socket2 in live {
          waitingQueue := [socket2] + waitingQueue;
        }
        RequeueRound(st, live, now);
        return false, [], false;
      }
      ghost var id := Id(now, storage.idCounter + 1);
      var success;
      success, events := MatchUsers(socket1, socket2, now);
      if success {
        PairedRound(st, live, now);
        assert events == MatchedPair(socket1, socket2, id);
        assert Step(st, live, now).events == [] + MatchedPair(socket1, socket2, id);
        assert [] + events == events;
        assert [] + [(socket1, socket2)] == [(socket1, socket2)];
        assert [(socket1, socket2)][..0] == [];
        return false, events, true;
      }
      waitingQueue := [socket2, socket1] + waitingQueue;
      FailedRound(st, live, now);
      assert [] + events == events;
      stop, paired := true, false;
    }

    /**
      Pairs two connected sockets through the store. On success both learn
      the conversation id and each other's id and are marked matched; on a
      conflict both get a pairing error and nothing else changes.
     */
    method MatchUsers(socket1: SocketId, socket2: SocketId, now: int) returns (success: bool, events: seq<Event>)
      requires Valid()
      modifies this`socketStore, storage
      ensures Valid()
      ensures old(storage.Paired()) ==> storage.Paired()
      ensures success <==> socket1 !in old(storage.participantIndex) && socket2 !in old(storage.participantIndex)
      ensures !success ==>
        events == FailedPair(socket1, socket2) && unchanged(this) && unchanged(storage)
      ensures success ==>
        var id := Id(now, old(storage.idCounter) + 1);
        && events == MatchedPair(socket1, socket2, id)
        && socketStore == old(socketStore)[socket1 := MatchedState][socket2 := MatchedState]
        && storage.Snapshot() == AfterCreate(old(storage.Snapshot()), socket1, socket2, now)
    {
      var r := storage.CreateConversation([socket1, socket2], now);
      if r.Ok? {
        var conversation := r.value;
        events := MatchedPair(socket1, socket2, conversation.id);
        socketStore := socketStore[socket1 := MatchedState][socket2 := MatchedState];
        success := true;
      } else {
        events := FailedPair(socket1, socket2);
        success := false;
      }
    }
  }
}
